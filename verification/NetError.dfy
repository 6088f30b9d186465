/** src/unix/Error.cpp and include/qsox/Error.hpp: error codes and how errno is turned into one (Linux numbers). */
module NetError {
  datatype Code =
    | Success | InvalidArgument | InvalidPointerAddress | IsConnected | NotConnected | NotASocket | MessageTooLong
    | AccessDenied | TimedOut | ConnectionRefused | ConnectionAborted | ConnectionReset | ConnectionClosed
    | WouldBlock | InProgress | AddressInUse | NetworkDown | Other

  datatype Error = Error(code: Code, osCode: int)

  const EINTR := 4
  const EISCONN := 106
  const EALREADY := 114
  const EINPROGRESS := 115

  function Coded(code: Code): Error {
    Error(code, 0)
  }

  function LastOsError(errno: int): Error {
    if errno == 110 then Coded(TimedOut)
    else if errno == 111 then Coded(ConnectionRefused)
    else if errno == 9 || errno == 22 then Coded(InvalidArgument)
    else if errno == 88 then Coded(NotASocket)
    else if errno == 13 then Coded(AccessDenied)
    else if errno == 14 then Coded(InvalidPointerAddress)
    else if errno == 11 then Coded(WouldBlock)
    else if errno == EINPROGRESS || errno == EALREADY then Coded(InProgress)
    else if errno == 90 then Coded(MessageTooLong)
    else if errno == 98 then Coded(AddressInUse)
    else if errno == 100 then Coded(NetworkDown)
    else if errno == 103 then Coded(ConnectionAborted)
    else if errno == 104 then Coded(ConnectionReset)
    else if errno == EISCONN then Coded(IsConnected)
    else if errno == 107 then Coded(NotConnected)
    else FromOs(errno)
  }

  /** `Error::fromOs`. */
  function FromOs(osCode: int): Error {
    Error(Other, osCode)
  }

  /** The test both transfer loops make before retrying. */
  predicate IsInterrupt(e: Error) {
    e.code == Other && e.osCode == EINTR
  }

  /**
   The translation of errno loses nothing but the difference within two pairs (EBADF and EINVAL, EINPROGRESS and
   EALREADY); an errno without a code of its own keeps its number, EINTR among them, so only EINTR is retried.
   */
  lemma ErrnoMeaning(x: int, y: int)
    ensures LastOsError(x) == LastOsError(y) <==>
            x == y || (x in {9, 22} && y in {9, 22}) || (x in {114, 115} && y in {114, 115})
    ensures LastOsError(x).code == Other ==> LastOsError(x) == FromOs(x)
    ensures IsInterrupt(LastOsError(x)) <==> x == EINTR
  {}

  /** The errno numbers that stand for each code; `Success` and `ConnectionClosed` are no errno, and 0 has no code. */
  function Errnos(code: Code): set<int> {
    match code
    case TimedOut => {110}
    case ConnectionRefused => {111}
    case InvalidArgument => {9, 22}
    case NotASocket => {88}
    case AccessDenied => {13}
    case InvalidPointerAddress => {14}
    case WouldBlock => {11}
    case InProgress => {EALREADY, EINPROGRESS}
    case MessageTooLong => {90}
    case AddressInUse => {98}
    case NetworkDown => {100}
    case ConnectionAborted => {103}
    case ConnectionReset => {104}
    case IsConnected => {EISCONN}
    case NotConnected => {107}
    case Success => {}
    case ConnectionClosed => {}
    case Other => {0}
  }

  /** Read from the codes: an errno gives a code exactly if it stands for it, and keeps its number if it has none. */
  lemma CodeMeaning(x: int, code: Code)
    ensures LastOsError(x) == Coded(code) <==> x in Errnos(code)
    ensures LastOsError(x) == FromOs(x) <==> forall c :: c != Other ==> x !in Errnos(c)
  {
    if LastOsError(x) != FromOs(x) {
      assert x in Errnos(LastOsError(x).code);
    }
  }
}
