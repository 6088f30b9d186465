/**
 Who owns which descriptor: the moves, destruction and release of src/BaseSocket.cpp and src/TcpStream.cpp as a state
 machine over a kernel that hands closed numbers out again.
 */
module Descriptors {
  import opened Wrappers

  const INVALID_FD: int := -1

  datatype Event = Opened(fd: int) | Closed(fd: int)

  /**
   The live socket objects with their `m_fd`, the descriptors open in the kernel, those given away by
   `releaseHandle`, and everything the kernel was asked to open and close.
   */
  datatype Process = Process(live: map<nat, int>, open: set<int>, released: set<int>, log: seq<Event>)

  const Empty := Process(map[], {}, {}, [])

  datatype Op =
    | Open(id: nat, fd: int)           // the kernel answers `fd`, a new object takes it
    | MoveConstruct(id: nat, src: nat)
    | MoveAssign(id: nat, src: nat)
    | Destroy(id: nat)
    | ReleaseHandle(id: nat)
    | CloseReleased(fd: int)           // the program closes a handle it was given

  /** What the program and the kernel may do next; a number is reused only once it is closed. */
  predicate Enabled(p: Process, op: Op) {
    match op
    case Open(id, fd) => id !in p.live && fd >= 0 && fd !in p.open
    case MoveConstruct(id, src) => id !in p.live && src in p.live
    case MoveAssign(id, src) => id in p.live && src in p.live
    case Destroy(id) => id in p.live
    case ReleaseHandle(id) => id in p.live
    case CloseReleased(fd) => fd in p.released
  }

  /** `close(fd)`, asked for whether or not it is open. */
  function Close(p: Process, fd: int): Process {
    p.(open := p.open - {fd}, log := p.log + [Closed(fd)])
  }

  function CloseIfValid(p: Process, fd: int): Process {
    if fd != INVALID_FD then Close(p, fd) else p
  }

  function Apply(p: Process, op: Op): Process
    requires Enabled(p, op)
  {
    match op
    case Open(id, fd) => p.(live := p.live[id := fd], open := p.open + {fd}, log := p.log + [Opened(fd)])
    case MoveConstruct(id, src) => p.(live := p.live[id := p.live[src]][src := INVALID_FD])
    case MoveAssign(id, src) =>
      if id == src then p
      else
        var q := CloseIfValid(p, p.live[id]);
        q.(live := p.live[id := p.live[src]][src := INVALID_FD])
    case Destroy(id) =>
      var q := CloseIfValid(p, p.live[id]);
      q.(live := p.live - {id})
    case ReleaseHandle(id) =>
      p.(live := p.live[id := INVALID_FD],
         released := if p.live[id] == INVALID_FD then p.released else p.released + {p.live[id]})
    case CloseReleased(fd) => Close(p, fd).(released := p.released - {fd})
  }

  function RunOps(p: Process, ops: seq<Op>): Option<Process>
    decreases |ops|
  {
    if ops == [] then Some(p)
    else if !Enabled(p, ops[0]) then None
    else RunOps(Apply(p, ops[0]), ops[1..])
  }

  lemma RunFirst(p: Process, op: Op, rest: seq<Op>)
    ensures RunOps(p, [op] + rest) == if Enabled(p, op) then RunOps(Apply(p, op), rest) else None
  {
    assert ([op] + rest)[1..] == rest;
  }

  /** A run that goes on: two runs one after the other are one run. */
  lemma {:induction false} RunAppend(p: Process, a: seq<Op>, b: seq<Op>)
    requires RunOps(p, a).Some?
    ensures RunOps(p, a + b) == RunOps(RunOps(p, a).value, b)
    decreases |a|
  {
    if a == [] {
      assert a + b == b;
    } else {
      RunAppend(Apply(p, a[0]), a[1..], b);
      assert (a + b)[1..] == a[1..] + b;
    }
  }

  // ---- What the operations do ----

  /** What an object holds, if it is there. */
  function Holds(p: Process, k: nat): Option<int> {
    if k in p.live then Some(p.live[k]) else None
  }

  /** What closing a descriptor, if it is one, adds to the history. */
  function Closing(fd: int): seq<Event> {
    if fd == INVALID_FD then [] else [Closed(fd)]
  }

  /**
   The effect of every operation on any object `k`, on the history, and on what was released: a move hands over exactly
   what the source held and leaves it empty, an assignment closes first what the target held, no other object changes.
   */
  lemma OperationMeaning(p: Process, op: Op, k: nat)
    requires Enabled(p, op)
    ensures var q := Apply(p, op);
            match op
            case Open(id, fd) =>
              Holds(q, k) == (if k == id then Some(fd) else Holds(p, k)) &&
              q.log == p.log + [Opened(fd)] && q.released == p.released
            case MoveConstruct(id, src) =>
              Holds(q, k) == (if k == id then Holds(p, src) else if k == src then Some(INVALID_FD) else Holds(p, k)) &&
              q.log == p.log && q.released == p.released
            case MoveAssign(id, src) =>
              if id == src then q == p
              else
                Holds(q, k) == (if k == id then Holds(p, src) else if k == src then Some(INVALID_FD) else Holds(p, k)) &&
                q.log == p.log + Closing(p.live[id]) && q.released == p.released
            case Destroy(id) =>
              Holds(q, k) == (if k == id then None else Holds(p, k)) &&
              q.log == p.log + Closing(p.live[id]) && q.released == p.released
            case ReleaseHandle(id) =>
              Holds(q, k) == (if k == id then Some(INVALID_FD) else Holds(p, k)) &&
              q.log == p.log && q.released == p.released + (if p.live[id] == INVALID_FD then {} else {p.live[id]})
            case CloseReleased(fd) =>
              Holds(q, k) == Holds(p, k) && q.log == p.log + [Closed(fd)] && q.released == p.released - {fd}
  {
    assert p.log + [] == p.log;
  }

  // ---- What the log says ----

  /** The descriptors open after a history, if it never opened an open one nor closed one that was not open. */
  function OpenAfter(log: seq<Event>): Option<set<int>> {
    if log == [] then Some({})
    else
      match (OpenAfter(log[..|log| - 1]), log[|log| - 1])
      case (None, _) => None
      case (Some(open), Opened(fd)) => if fd in open then None else Some(open + {fd})
      case (Some(open), Closed(fd)) => if fd in open then Some(open - {fd}) else None
  }

  function Count(log: seq<Event>, e: Event): nat {
    if log == [] then 0 else Count(log[..|log| - 1], e) + if log[|log| - 1] == e then 1 else 0
  }

  /** In a history without such mistakes every descriptor is closed as often as opened, or once less while it is open. */
  lemma {:induction false} OpenedOnceClosedOnce(log: seq<Event>, fd: int)
    requires OpenAfter(log).Some?
    ensures Count(log, Opened(fd)) == Count(log, Closed(fd)) + if fd in OpenAfter(log).value then 1 else 0
  {
    if log != [] {
      OpenedOnceClosedOnce(log[..|log| - 1], fd);
    }
  }

  // ---- The invariant ----

  predicate Owned(p: Process, fd: int) {
    exists id :: id in p.live && p.live[id] == fd
  }

  /** No two objects own one descriptor, and what is owned is open and not released. */
  ghost predicate OwnedOnce(p: Process) {
    && (forall i, j :: i in p.live && j in p.live && i != j && p.live[i] != INVALID_FD ==> p.live[i] != p.live[j])
    && (forall i :: i in p.live && p.live[i] != INVALID_FD ==> p.live[i] in p.open && p.live[i] !in p.released)
  }

  ghost predicate Inv(p: Process) {
    && OwnedOnce(p)
    && p.released <= p.open
    && (forall fd :: fd in p.open ==> fd >= 0 && (fd in p.released || Owned(p, fd)))
    && OpenAfter(p.log) == Some(p.open)
  }

  lemma LogGrows(log: seq<Event>, e: Event)
    requires OpenAfter(log).Some?
    ensures OpenAfter(log + [e]) ==
            match e
            case Opened(fd) => if fd in OpenAfter(log).value then None else Some(OpenAfter(log).value + {fd})
            case Closed(fd) => if fd in OpenAfter(log).value then Some(OpenAfter(log).value - {fd}) else None
  {
    assert (log + [e])[..|log|] == log;
  }

  lemma OwnedMoves(p: Process, q: Process, id: nat, src: nat)
    requires src in p.live && id != src && q.live == p.live[id := p.live[src]][src := INVALID_FD]
    requires id in p.live ==> p.live[id] == INVALID_FD || p.live[id] !in q.open
    requires forall fd :: fd in q.open ==> fd >= 0 && (fd in q.released || Owned(p, fd))
    ensures forall fd :: fd in q.open ==> fd in q.released || Owned(q, fd)
  {
    forall fd | fd in q.open && fd !in q.released
      ensures Owned(q, fd)
    {
      var k :| k in p.live && p.live[k] == fd;
      if k == src {
        assert q.live[id] == fd;
      } else {
        assert q.live[k] == fd;
      }
    }
  }

  lemma OpenKeepsInv(p: Process, id: nat, fd: int)
    requires Inv(p) && Enabled(p, Open(id, fd))
    ensures Inv(Apply(p, Open(id, fd)))
  {
    var q := Apply(p, Open(id, fd));
    LogGrows(p.log, Opened(fd));
    OthersStayOwned(p, q, id);
    assert q.live[id] == fd;
  }

  lemma CloseKeepsLog(p: Process, fd: int)
    requires OpenAfter(p.log) == Some(p.open) && (fd != INVALID_FD ==> fd in p.open)
    ensures var q := CloseIfValid(p, fd); OpenAfter(q.log) == Some(q.open)
  {
    LogGrows(p.log, Closed(fd));
  }

  lemma MoveAssignKeepsOwners(p: Process, id: nat, src: nat)
    requires OwnedOnce(p) && id in p.live && src in p.live && id != src
    ensures OwnedOnce(Apply(p, MoveAssign(id, src)))
  {}

  lemma MoveAssignKeepsInv(p: Process, id: nat, src: nat)
    requires Inv(p) && Enabled(p, MoveAssign(id, src))
    ensures Inv(Apply(p, MoveAssign(id, src)))
  {
    if id != src {
      CloseKeepsLog(p, p.live[id]);
      MoveAssignKeepsOwners(p, id, src);
      OwnedMoves(p, Apply(p, MoveAssign(id, src)), id, src);
    }
  }

  lemma DestroyKeepsInv(p: Process, id: nat)
    requires Inv(p) && Enabled(p, Destroy(id))
    ensures Inv(Apply(p, Destroy(id)))
  {
    LogGrows(p.log, Closed(p.live[id]));
    OthersStayOwned(p, Apply(p, Destroy(id)), id);
  }

  lemma ApplyKeepsInv(p: Process, op: Op)
    requires Inv(p) && Enabled(p, op)
    ensures Inv(Apply(p, op))
  {
    var q := Apply(p, op);
    match op
    case Open(id, fd) => OpenKeepsInv(p, id, fd);
    case MoveConstruct(id, src) => OwnedMoves(p, q, id, src);
    case MoveAssign(id, src) => MoveAssignKeepsInv(p, id, src);
    case Destroy(id) => DestroyKeepsInv(p, id);
    case ReleaseHandle(id) => OthersStayOwned(p, q, id);
    case CloseReleased(fd) =>
      LogGrows(p.log, Closed(fd));
      assert forall x :: Owned(p, x) ==> Owned(q, x);
  }

  /** When only one object changes, what the others own is still owned. */
  lemma OthersStayOwned(p: Process, q: Process, id: nat)
    requires forall k :: k in p.live && k != id ==> k in q.live && q.live[k] == p.live[k]
    ensures forall fd :: Owned(p, fd) && (id in p.live ==> p.live[id] != fd) ==> Owned(q, fd)
  {
    forall fd | Owned(p, fd) && (id in p.live ==> p.live[id] != fd)
      ensures Owned(q, fd)
    {
      var k :| k in p.live && p.live[k] == fd;
      assert q.live[k] == fd;
    }
  }

  lemma {:induction false} RunKeepsInv(p: Process, ops: seq<Op>)
    requires Inv(p) && RunOps(p, ops).Some?
    ensures Inv(RunOps(p, ops).value)
    decreases |ops|
  {
    if ops != [] {
      ApplyKeepsInv(p, ops[0]);
      RunKeepsInv(Apply(p, ops[0]), ops[1..]);
    }
  }

  // ---- Main results ----

  /**
   Over every run: two live sockets never own the same valid descriptor, what is open is owned or released and nothing
   else is, and no descriptor was opened while open or closed while not open; each was closed exactly as often as it
   was opened, except once less while it is still owned or released.
   */
  lemma Ownership(ops: seq<Op>, i: nat, j: nat, fd: int)
    requires RunOps(Empty, ops).Some?
    ensures var p := RunOps(Empty, ops).value;
            && (i in p.live && j in p.live && i != j && p.live[i] != INVALID_FD ==> p.live[i] != p.live[j])
            && OpenAfter(p.log) == Some(p.open)
            && (fd in p.open <==> fd != INVALID_FD && (fd in p.released || Owned(p, fd)))
            && !(fd != INVALID_FD && fd in p.released && Owned(p, fd))
            && Count(p.log, Opened(fd)) == Count(p.log, Closed(fd)) + if fd in p.open then 1 else 0
  {
    assert Inv(Empty);
    RunKeepsInv(Empty, ops);
    var p := RunOps(Empty, ops).value;
    OpenedOnceClosedOnce(p.log, fd);
  }

  /** Once every object is gone and every released handle closed, everything that was opened has been closed. */
  lemma NothingLeaks(ops: seq<Op>, fd: int)
    requires RunOps(Empty, ops).Some?
    requires var p := RunOps(Empty, ops).value; p.live == map[] && p.released == {}
    ensures var p := RunOps(Empty, ops).value;
            p.open == {} && Count(p.log, Opened(fd)) == Count(p.log, Closed(fd))
  {
    assert Inv(Empty);
    RunKeepsInv(Empty, ops);
    var p := RunOps(Empty, ops).value;
    OpenedOnceClosedOnce(p.log, fd);
    forall x
      ensures x !in p.open
    {
      assert !Owned(p, x) && x !in p.released;
    }
  }
}
