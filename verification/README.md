# Verified model of qsox

A Dafny model of the parts of the qsox networking library that carry real obligations: the text form of IP and socket
addresses, the transfer loops of a TCP stream, the ownership of socket descriptors, connecting with a deadline, and the
binary form of socket addresses. `dafny verify dfyconfig.toml` checks all of it.

## How it is built

Code that loops, fills buffers or updates objects is an imperative method or a class here, proved equal to a
specification function (`Ipv4.Parse` against `Ipv4.Read`, `Ipv6.ToString` against `Ipv6.Text`, and so on); what the
library promises is then proved about those functions. Code made of branches and calls is a function.

| file | what it models |
|---|---|
| Numerals.dfy, Strings.dfy | printed numbers, `std::from_chars`, `find`, `rfind` |
| ByteOrder.dfy | memory images of integers and `byteswap` |
| Ipv4.dfy, Ipv6.dfy | src/Ipv4Address.cpp, src/Ipv6Address.cpp |
| Rfc4291.dfy, Ipv6Grammar.dfy | the reader behind `inet_pton` from section 2.2 of RFC 4291, and the grammar it is proved against |
| Ipv6Text.dfy, Rfc5952.dfy, Ipv6Length.dfy | the printer against that reader, its canonical form, its length |
| Ip.dfy, Endpoint.dfy, Network.dfy | src/IpAddress.cpp, the three socket address files, src/NetworkAddress.cpp |
| SockAddrAny.dfy | the address union of src/SocketUtil.hpp, destinations of src/UdpSocket.cpp |
| NetError.dfy, TcpStream.dfy, Transfer.dfy | the transfer loops, alone and with both ends running at once |
| Descriptors.dfy, Sockets.dfy | descriptor ownership as a state machine, and the objects that follow it |
| ConnectTimeout.dfy | src/unix/TcpStream.cpp |

The kernel, the clock and the name resolver are not modelled as programs: every call to them may give any answer its
interface allows. `inet_pton` is foreign code and is written out as a reader of the grammar; a text is cut at its first
NUL before it, as `c_str()` does. Hosts are little-endian and layouts and constants are those of Linux.

The kernel's side of a connection (`TcpStream.Pipe`, `Sockets.Kernel`, `ConnectTimeout.Host`) keeps a log of every call
made to it and of the answer. The contracts of the methods name the part of the log that a call has added, so what they
say of results and errors is said of what the kernel answered.

Two state machines carry the properties over whole runs, and the imperative code is tied to both. `SendAll` and
`ReceiveExact` are shown to go through exactly the logged answers by `TcpStream.Iterate`, the very step that
`Transfer.Step` interleaves for the two ends. The methods of `Sockets` are shown to turn a heap that represents a state
of `Descriptors` into one that represents the state after the named operations.

## Where the code does not do what one might expect

- `Ipv4Address::parse` does not look where a number stopped, so `1x.2.3.4y` is 1.2.3.4 (`Ipv4.LitteredExample`); text
  behind any of the four numbers is ignored (`Ipv4.IgnoresJunk`). An accepted text is the dotted quad of its address
  exactly when its pieces are minimal numbers and nothing else (`Ipv4.AcceptedIsText`).
- `IpAddress::parse`, `NetworkAddress::resolve` and `SocketAddress::parse` (for a host without brackets) try the IPv4
  reader, so some IPv6 spellings with a dotted quad are taken for IPv4 addresses. `Ip.ParseSpelling`,
  `Network.ResolveSpelling` and `Endpoint.UnbracketedSpelling` say exactly which; `Ip.ParseMisreads`,
  `Network.ResolveMisreads` and `Endpoint.ReadMisreads` each give a family of them, `1::` and a quad.
- The length gate of `IpAddress::parse` hides IPv4 texts of more than 15 characters that `Ipv4Address::parse` accepts
  (`Ip.ParseV4Text`, with the input `1.2.3.4xxxxxxxxx` in `Ip.GateHides`).
- `SocketAddressV6::toString` prints no brackets and `SocketAddressV6::parse` requires them, so the parser never takes
  what the printer writes (`Endpoint.FamilyTexts`); `SocketAddress::toString` does write the brackets.
- `NetworkAddress::parse` keeps those brackets as part of the host, so the text of an IPv6 socket address, read as a
  network address, goes to the name resolver (`Network.SocketTextAsNetworkAddress`); a network address built from the
  socket address itself does not (`Network.ResolveRoundTrip`).
- The README example `Ipv6Address::parse("[2a00:5b7f::931]")` fails: brackets are no part of the address
  (`Ip.V6ReadsPlainText`). The same lemma shows that everything after a NUL is ignored.
- A `NetworkAddress` with an empty host is printed as `:port`, which does not parse (`Network.ParseToString`).
- The printed IPv6 text can be one character longer than the shortest spelling; `Ipv6Length.ShortestIffNoInnerTie` says
  when.
- `doConnectTimeout` does not always leave the socket blocking: it is left non-blocking exactly when the switch back
  failed, or when the first switch failed on a socket that was non-blocking already
  (`ConnectTimeout.DoConnectTimeout`). `connectInternal` starts from a new, blocking socket and closes it on failure.
- The one `connect` of `doConnectTimeout` reports EINTR and EISCONN as errors, where `doConnect` retries the first and
  takes the second for success (`ConnectTimeout.Opened` and `ConnectTimeout.Attempts`, in the contracts of the two).
- When `poll` reports trouble, `doConnectTimeout` answers with the pending error: the error `Success` if there is none
  (`ConnectTimeout.ReportMeaning`), and otherwise always an error numbered as the system does, so that a connection
  refused at that point is not `ConnectionRefused` (`ConnectTimeout.PendingMeaning`).

## Model

| member | source | states |
|---|---|---|
| ByteOrder.ByteswapReversesBytes | include/qsox/Util.hpp:33-51 | at every width, byte k of the swapped value in memory is byte width-1-k of the original, and swapping twice gives the value back |
| ByteOrder.Bswap16IsByteswap | src/Util.cpp:9-22 | the shift-and-or expression for 16 bits is the two-byte swap, puts the high byte first in memory, and is its own inverse |
| Ipv4.BitsAreABijection | include/qsox/Ipv4Address.hpp:37-51 | `toBits` and `fromBits` undo each other on every address and every 32-bit value |
| Ipv4.InAddrIsNetworkOrder | src/Ipv4Address.cpp:85-91 | `s_addr` holds the four octets in network order in memory, and `toInAddr`/`fromInAddr` are inverse bijections |
| Ipv4.CompareIsUnsignedOrder | include/qsox/Ipv4Address.hpp:69-75 | the three-way comparison of octet arrays is the unsigned comparison of the 32-bit values, hence a total order |
| Ipv4.Parse | src/Ipv4Address.cpp:32-68 | the loop that consumes the view answers, on every string, what the specification over the dot-separated pieces answers |
| Ipv4.ReadMeaning | src/Ipv4Address.cpp:35-67 | read as an address exactly when four pieces each begin with a digit run, leading zeros or not, whose value is the octet; trailing data exactly for more than four pieces with four good ones; missing octets exactly for fewer than four with good pieces before the last; every other text is an invalid octet |
| Ipv4.OctetMeaning | src/Ipv4Address.cpp:47-52 | a piece gives the octet v exactly if its leading digits, all of them and at least one, have the value v |
| Numerals.FromCharsMeaning | src/Ipv4Address.cpp:47-52 | however a text is cut behind its leading digits, these are what is read, with the error for none and for too large a value |
| Numerals.ValueAppend | src/SocketAddress.cpp:66-70 | the value of digits is positional: what stands before any point weighs as many powers of the base as there are digits behind it |
| Numerals.DigitMeaning | src/Ipv6Address.cpp:85-94 | exactly the sixteen digits, in either case, have the values 0 to 15 |
| Ipv4.ToString | src/Ipv4Address.cpp:70-83 | the appending loop writes the four decimal numerals joined by dots |
| Ipv4.TextShape | src/Ipv4Address.cpp:70-83 | printed text splits at its dots into exactly the four numerals, has 7 to 15 characters, only digits and dots |
| Ipv4.ReadText | src/Ipv4Address.cpp:32-83 | parsing undoes printing for every address |
| Ipv4.IgnoresJunk | src/Ipv4Address.cpp:35-66 | dotless text behind any of the four numbers of an address is ignored unless it goes on with a digit; behind the last number a dot makes it trailing data |
| Ipv4.AcceptedIsText | src/Ipv4Address.cpp:35-67 | an accepted text is the printed text of its address if and only if each piece is all digits, without a leading zero |
| Ipv4.LitteredExample | src/Ipv4Address.cpp:43-54 | `1x.2.3.4y` is accepted as 1.2.3.4 and is no dotted quad of any address |
| Ipv4.StrictQuadIsText | src/Ipv6Address.cpp:85-94 | the strict dotted quad inside an IPv6 text is accepted exactly when it is the printed text of the address it gives |
| Ipv6.SegmentsBijection | src/Ipv6Address.cpp:25-51 | groups and octets determine each other: the conversions are mutual inverses |
| Ipv6.SegmentsInPlace | src/Ipv6Address.cpp:41-51 | copying the octets over 16-bit integers and swapping each in place leaves group i equal to 256 times octet 2i plus octet 2i+1 |
| Ipv6.FromGroups | src/Ipv6Address.cpp:25-39 | the eight-group constructor stores the octets whose groups are the arguments |
| Ipv6.ToIpv4Mapped | src/Ipv6Address.cpp:53-72 | the octet checks recognise exactly the mapped addresses and give the embedded address |
| Ipv6.FromIpv4Mapped | src/Ipv6Address.cpp:74-83 | filling the buffer gives the mapped form of section 2.5.5.2 of RFC 4291 |
| Ipv6.MappedEmbedding | src/Ipv6Address.cpp:53-83 | `toIpv4Mapped` gives v4 exactly for the address `fromIpv4Mapped` makes of v4: an injection whose image is recognised and inverted |
| Ipv6.ScanZeroRun | src/Ipv6Address.cpp:104-128 | the one-pass scan finds the longest zero run, for arrays of any length |
| Ipv6.LongestRunMeaning | src/Ipv6Address.cpp:104-128 | that run is a run of zeros, none is longer, and none as long begins further left |
| Ipv6.WriteSubslice | src/Ipv6Address.cpp:133-145 | appends the hexadecimal groups of the range joined by colons to what was written before |
| Ipv6.ToString | src/Ipv6Address.cpp:96-156 | scan and writer together produce the specified text on the mapped, compressed and plain paths |
| Ipv6Text.GappedReads | src/Ipv6Address.cpp:147-150 | any zero run of at least one group may be written `::`, at the start, inside, at the end or everywhere, and the reader restores it |
| Ipv6Text.TextReads | src/Ipv6Address.cpp:85-156 | reading the printed text with the RFC 4291 reader gives back exactly that address, on every path |
| Ipv6Grammar.InetPtonMeaning | src/Ipv6Address.cpp:85-94 | the reader takes exactly the texts of the grammar of section 2.2 of RFC 4291 (groups of one to four digits, one `::` for at least one zero group, an IPv4 text for the last two) and reads them as the groups they spell |
| Ipv6Grammar.LowerReadsAlike | src/Ipv6Address.cpp:85-94 | a text and its lower-case form are read as the same address, or neither as any |
| Rfc5952.CanonicalIsPrinted | src/Ipv6Address.cpp:96-156 | a text is canonical in the sense of sections 4 and 5 of RFC 5952 (minimal lower-case groups, `::` exactly for the leftmost longest run of two or more, dotted quad exactly for mapped addresses) if and only if it is what the printer writes for the address it spells |
| Rfc5952.NormalisingIsCanonical | src/Ipv6Address.cpp:85-156 | printing what was read from any RFC 4291 spelling gives the one canonical spelling of the same address |
| Ipv6Length.PrintedIsNearlyShortest | src/Ipv6Address.cpp:104-155 | for every non-mapped address the printed text is at most one character longer than any RFC 4291 spelling of it, those with a dotted quad included |
| Ipv6Length.ShortestIffNoInnerTie | src/Ipv6Address.cpp:104-155 | it is a shortest spelling exactly when no inner zero run ties with a run printed at an edge or with an unprinted single zero |
| Ipv6Length.TieExample | src/Ipv6Address.cpp:104-155 | the tie happens: 0:0:1:0:0:1:1:1 has one |
| Ipv6Length.TextLengthBounds | src/Ipv6Address.cpp:96-156 | every printed text has 2 to 39 characters, mapped ones 14 to 22 |
| Ip.ParseToString | src/IpAddress.cpp:14-35 | parsing undoes printing for every address and keeps the family; the length gate never rejects a printed IPv4 text |
| Ip.ParseMeaning | src/IpAddress.cpp:18-35 | on every text: an IPv4 answer exactly for what the IPv4 parser reads at 7 to 15 characters, an IPv6 answer exactly for what the IPv6 parser reads otherwise, and an error for everything else |
| Ip.ToStringMeaning | src/IpAddress.cpp:14-16 | the text is the one strict dotted quad, or the one canonical spelling, of the address |
| Ip.V4RejectsPrintedV6 | src/IpAddress.cpp:28-32 | the IPv4 trial fails on every text the IPv6 printer can write |
| Ip.ParseSpelling | src/IpAddress.cpp:18-35 | an RFC 4291 spelling is parsed as the IPv6 address it spells if and only if it is not a text of at most 15 characters with a dot that begins with a decimal octet |
| Ip.ParseMisreads | src/IpAddress.cpp:18-35 | `1::` followed by any quad a.b.c.d of at most 12 characters spells an IPv6 address and is parsed as the IPv4 address 1.b.c.d |
| Ip.ParseV4Text | src/IpAddress.cpp:18-35 | a text the IPv4 parser accepts keeps that reading if and only if it has at most 15 characters |
| Ip.GateHides | src/IpAddress.cpp:18-26 | a text of 16 characters that the IPv4 parser accepts and the combined parser rejects |
| Ip.V6ReadsPlainText | src/Ipv6Address.cpp:85-94 | a text with a bracket before its first NUL is rejected, and nothing after a NUL is looked at |
| Ip.V6Meaning | src/Ipv6Address.cpp:85-94 | a text is read as an address if and only if the part before its first NUL spells it |
| Endpoint.CutsWithPort | src/SocketAddress.cpp:36-42 | behind a printed port the last colon is the separator whatever colons the host holds, and the port reads back |
| Endpoint.ReadPortMeaning | src/SocketAddress.cpp:66-70 | a port is accepted exactly when it is non-empty, all digits and at most 65535, with that value |
| Endpoint.ParseV4Meaning | src/SocketAddressV4.cpp:45-66 | for every host and port text, success and each error are characterised by the dot-separated pieces of the host and the port text; address errors come before port errors |
| Endpoint.ParseV6Meaning | src/SocketAddressV6.cpp:48-67 | for every host and port text: a host not of the form [t] is `InvalidStructure`; otherwise the address t decides first, then the port |
| Endpoint.MissingPortMeaning | src/SocketAddress.cpp:36-39 | all three parsers report a missing port exactly for the texts that are not a host, a colon and a colon-free port, both non-empty |
| Endpoint.ParseV6 | src/SocketAddressV6.cpp:39-68 | answers an endpoint exactly for `[t]:p` where t reads as its address and p as its port, whatever colons and brackets t holds; every printed endpoint is read back |
| Endpoint.Parse | src/SocketAddress.cpp:35-73 | accepts what exactly one family parser accepts, with its value, reports an invalid port exactly when one of them does, and reads every printed endpoint back |
| Endpoint.ToStringV4 | src/SocketAddressV4.cpp:68-75 | writes the address text, a colon and the port numeral; the family parser and the combined parser both read it back |
| Endpoint.ToStringV6 | src/SocketAddressV6.cpp:70-77 | writes the address text without brackets, a colon and the port numeral; its own parser answers that with `InvalidStructure` and the combined parser with `InvalidAddress` |
| Endpoint.ParseIsTheUnion | src/SocketAddress.cpp:35-73 | on every string `SocketAddress::parse` accepts what exactly one of the two family parsers accepts, with the same value; missing and invalid ports agree with theirs |
| Endpoint.ReadToString | src/SocketAddress.cpp:27-73 | parsing undoes printing for every address and port, and the matching family parser agrees |
| Endpoint.ToStringMeaning | src/SocketAddress.cpp:27-33 | what is printed cuts at its last colon into the address text, in brackets for IPv6, and the port numeral |
| Endpoint.FamilyTexts | src/SocketAddressV6.cpp:39-77 | the IPv4 endpoint text round-trips; every IPv6 endpoint text printed without brackets is answered with `InvalidStructure` |
| Endpoint.UnbracketedSpelling | src/SocketAddress.cpp:57-64 | an IPv6 spelling without brackets is accepted as a host if and only if it holds a dot and begins with a decimal octet; otherwise it is `InvalidAddress` |
| Endpoint.ReadMisreads | src/SocketAddress.cpp:57-64 | for every quad a.b.c.d the text `1::a.b.c.d:port` is read as the IPv4 endpoint 1.b.c.d |
| Network.ParseToString | src/NetworkAddress.cpp:18-38 | parsing undoes printing exactly for non-empty hosts, colons in them or not; an empty host gives `MissingPort` |
| Network.ParseMeaning | src/NetworkAddress.cpp:22-38 | accepted are exactly the texts that are a non-empty host, a colon and a spelling of a port, with that host and port; `InvalidPort` exactly for a host, a colon and a non-empty colon-free text that is no port |
| Network.ToStringMeaning | src/NetworkAddress.cpp:18-20 | the printed text is the host and the port numeral around the last colon |
| Network.ResolveMeaning | src/NetworkAddress.cpp:63-76 | for every host the IPv4 reading comes first, then the IPv6 reading, and only if both refuse it the resolver's address with this port, or its error |
| Network.ResolveFamilyMeaning | src/NetworkAddress.cpp:41-61 | the same for each family call and its own reader |
| Network.ResolveRoundTrip | src/NetworkAddress.cpp:63-76 | a socket address made into a network address, printed, parsed and resolved is the same, whatever the resolver would say |
| Network.ResolveFamilies | src/NetworkAddress.cpp:41-61 | the family-specific calls answer their own family without the resolver and never read the other family's printed text |
| Network.ResolveSpelling | src/NetworkAddress.cpp:63-71 | a host spelling an IPv6 address resolves to it if and only if it does not hold a dot and begin with a decimal octet |
| Network.ResolveMisreads | src/NetworkAddress.cpp:63-71 | for every quad a.b.c.d the host `1::a.b.c.d` resolves to the IPv4 address 1.b.c.d |
| Network.SocketTextAsNetworkAddress | src/NetworkAddress.cpp:22-76 | the text of a socket address parsed as a network address resolves by itself for IPv4; for IPv6 the brackets stay in the host, neither reader takes it, and the answer is the resolver's |
| SockAddr.SockAddrAny.AssignV4 | src/SocketAddressV4.cpp:77-82 | the field stores overwrite the first 16 bytes with family, port and address in network order and zeros, and leave the rest |
| SockAddr.SockAddrAny.AssignV6 | src/SocketAddressV6.cpp:79-85 | the field stores overwrite all 28 bytes with family, port, zero flow information, address in network order and zero scope |
| SockAddr.SockAddrAny.Size | src/SocketUtil.hpp:117-119 | the size is the length of the image of whichever address the buffer holds |
| SockAddr.SockAddrAny.ToSocketAddress | src/SocketUtil.hpp:161-169 | decoding gives the address the buffer holds |
| SockAddr.DecodeOverwrite | src/SocketUtil.hpp:83-113 | whatever bytes were there before, the address written is the address read, by either decoder |
| SockAddr.DecodeLast | src/SocketUtil.hpp:101-109 | after any sequence of assignments of either family into one buffer, decoding gives the last |
| SockAddr.ImageLayout | src/SocketAddressV6.cpp:79-85 | where the fields lie in the 16 or 28 bytes, in which order, and that the rest is zero |
| SockAddr.DecodeMeaning | src/SocketUtil.hpp:161-169 | any bytes decode to an address exactly if family, port and address fields are its own, whatever padding, flow information and scope hold |
| SockAddr.FromSockAddrMeaning | src/SocketAddress.cpp:79-87 | the reader without a family check agrees, and takes every other family for IPv6 |
| SockAddr.ConstructDestAddr | src/UdpSocket.cpp:9-23 | the fresh union holds the image of the destination, mapped off Linux when an IPv6 socket sends to an IPv4 peer |
| SockAddr.DestinationMeaning | src/UdpSocket.cpp:9-23 | on Linux, for an IPv4 socket and for an IPv6 peer the bytes decode to the very endpoint asked for, in its own family; an IPv6 socket off Linux always gets the IPv6 family, with an IPv4 peer as its mapped address; the port is kept, and equal destinations are equal endpoints up to mapping |
| NetError.ErrnoMeaning | src/unix/Error.cpp:6-48 | the errno translation identifies nothing but two pairs, unlisted numbers are kept, and EINTR alone is the number the loops retry |
| NetError.CodeMeaning | src/unix/Error.cpp:6-48 | read from the codes: which errno numbers give each code, and that all others keep their number |
| TcpStream.LoopMeaning | src/TcpStream.cpp:43-118 | over any kernel answers: bytes moved are the sum of the counts, the loop is done exactly when that is the size, stops exactly at the first failure other than EINTR or zero count, and with that error |
| TcpStream.Send | src/TcpStream.cpp:32-41 | one call to the kernel, whose answer is reported as the count, a closed connection for zero, or the OS error; exactly the counted prefix was accepted |
| TcpStream.SendAll | src/TcpStream.cpp:43-70 | the loop goes through exactly the answers the kernel gave, so it ends with an error only at the first failure other than EINTR or zero count; the accepted bytes are a prefix of the data, all of it on success; it terminates |
| TcpStream.Receive | src/TcpStream.cpp:109-118 | one call to the kernel, reported in the same way; exactly the counted next bytes are put at the offset and nothing else is touched |
| TcpStream.ReceiveExact | src/TcpStream.cpp:76-103 | the loop goes through exactly the answers the kernel gave; on success the buffer is exactly the next bytes of the stream, on failure a prefix holds the consumed bytes in order and the rest is unchanged; it terminates |
| Transfer.StepKeepsInv | src/TcpStream.cpp:43-103 | in every interleaving accepted bytes equal delivered bytes followed by the queue, and every call's progress is consistent |
| Transfer.RunFollows | src/TcpStream.cpp:43-103 | in every run each call is exactly the loop of `sendAll` or `receiveExact`, begun with the caller's data or size and taken through the answers given to it, whatever happens at the other end |
| Transfer.RunGoesOn | src/TcpStream.cpp:43-103 | after any run a call may begin where the last is finished, and an unfinished call may be given any failure and any count up to what it lacks and what is under way |
| Transfer.EndToEnd | src/TcpStream.cpp:43-103 | in every run, in terms of the callers' data and sizes and the kernel's counts: every `receiveExact` buffer is the next slice of the accepted stream, of the size asked for when completed; the rest is under way; nothing is lost, duplicated or reordered; with all sends counted whole the stream is the callers' data |
| Transfer.FramedTransfer | src/TcpStream.cpp:43-103 | in every run, calls in progress and failed ones included: what was filled from the sends up to and into the first not sent whole is a slice of the callers' data, beginning where the sizes asked for by the earlier, filled receives end |
| Transfer.OneTransfer | src/TcpStream.cpp:43-103 | such runs exist: any data sent by one call and received by one arrives unchanged |
| Descriptors.OpenedOnceClosedOnce | src/BaseSocket.cpp:11-32 | in a history that opens no open and closes no closed descriptor, each is closed as often as opened, or once less while open |
| Descriptors.ApplyKeepsInv | src/BaseSocket.cpp:11-32 | every construction, move, self-assignment, destruction and release keeps unique ownership and loses no descriptor |
| Descriptors.OperationMeaning | src/BaseSocket.cpp:11-32 | what every operation does to what any object holds, to the history of closings and to the handles released: a move hands over exactly what the source held, and an assignment closes what the target held, unless it is from itself |
| Descriptors.Ownership | src/BaseSocket.cpp:11-32 | over every run, with numbers reused: no two live sockets own one descriptor, open means owned or released and not both, and nothing is closed while not open |
| Descriptors.NothingLeaks | src/BaseSocket.cpp:28-32 | once all objects are gone and released handles closed, every opened descriptor has been closed |
| Descriptors.RunAppend | src/BaseSocket.cpp:11-32 | two runs one after the other are one run, so every result about runs holds at each later point |
| Sockets.BaseSocket.Move | src/BaseSocket.cpp:11-13 | the new object has the descriptor and the old one none |
| Sockets.BaseSocket.Assign | src/BaseSocket.cpp:15-26 | the target takes the descriptor of the source, which has none then, and its own is closed, if it had one; assigning an object to itself changes nothing; it is the machine's move assignment |
| Sockets.BaseSocket.Destroy | src/BaseSocket.cpp:28-32 | closes the descriptor exactly if there is one; it is the machine's destruction |
| Sockets.BaseSocket.ReleaseHandle | src/TcpStream.cpp:127-131 | hands out the descriptor, which the object no longer owns, nobody has closed and the machine counts as released |
| Sockets.NewBoundSocket | src/SocketUtil.hpp:231-258 | asks for a descriptor, for IPv6 allows IPv4 too, and binds, in this order and stopping at the first refusal, and fails exactly on one with the errno of then; success opens exactly one new descriptor, every failure leaves the open set as it was, having closed what it opened |
| Sockets.BindListener | src/TcpListener.cpp:8-23 | is a run of the machine: it fails exactly if descriptor, bind or listen is refused, leaving the open set and the sockets as they were; success adds one socket owning the one descriptor granted |
| Sockets.Accept | src/TcpListener.cpp:25-39 | the same for accepting, through the early stream that is moved into the result; the error is that of the refusal |
| Sockets.ConnectInternal | src/TcpStream.cpp:16-30 | the same for connecting, through `doConnectTimeout` or `doConnect` as mode and timeout select: the error is that of the refused descriptor, or what those make of the calls on the connection; on failure the early stream's destructor closes the descriptor; a connected socket is non-blocking exactly if that was asked for |
| Sockets.BindUdp | src/UdpSocket.cpp:27-33 | the same for a datagram socket, which also notes the address family |
| Sockets.AcquisitionExtendsRun | src/SocketUtil.hpp:231-258 | an acquisition after any run from the start is part of a run from the start, and the socket it adds is the only owner of its descriptor |
| Sockets.OwnershipOverCalls | src/BaseSocket.cpp:11-32 | over every history of moves, destructions, releases and whole binds, accepts and connects, failing or not: unique ownership, nothing lost, and every descriptor closed as often as opened, or once less while open |
| ConnectTimeout.DoConnect | src/unix/TcpStream.cpp:10-37 | the calls made are the mode switch when non-blocking and, unless that fails, attempts that are repeated exactly while a signal cuts them short; the last one's answer is success if it connected, was connected already, or is in progress when non-blocking, and its error otherwise; the mode afterwards is determined; it terminates |
| ConnectTimeout.AttemptsMeaning | src/unix/TcpStream.cpp:19-36 | in both modes attempts never end in an interrupt or an established connection as an error; when non-blocking an `InProgress` error stands for EALREADY |
| ConnectTimeout.WaitUntilReady | src/unix/TcpStream.cpp:65-90 | every poll but the last was over or interrupted; the last decides: a failure other than EINTR, trouble, or ready; a timeout is answered only when the timeout has elapsed; every wait is positive, elapsed time plus wait is the timeout, waits never grow; it terminates |
| ConnectTimeout.WaitReaches | src/unix/TcpStream.cpp:68-76 | each such wait is asked for before the deadline, reaches to it, and past it by less than a millisecond |
| ConnectTimeout.DoConnectTimeout | src/unix/TcpStream.cpp:39-91 | the calls made are: switch on, one connect, switch back, then polls only for a connection in progress, against a deadline counted from after the connect; every error is that of the call it comes from; the socket is left non-blocking if and only if the switch back failed, or the first switch failed on a non-blocking socket |
| ConnectTimeout.CallsDecide | src/unix/TcpStream.cpp:39-91 | the calls made and their answers leave only one reason for the end, and so one result |
| ConnectTimeout.ReportMeaning | src/unix/TcpStream.cpp:46-88 | the answer is `TimedOut` exactly at the deadline or when a system call itself failed with ETIMEDOUT, and `Success` as an error exactly for trouble without a pending error |
| ConnectTimeout.PendingMeaning | src/BaseSocket.cpp:64-77 | a pending error keeps its number; it is what that errno would be reported as if and only if the errno has no code of its own |
| ConnectTimeout.WaitFits | src/unix/TcpStream.cpp:68-74 | the int subtraction is exact and in range if and only if the elapsed count is at least the timeout less the largest int |

## Left out

- TcpStream.SendAll: assumes that signals interrupt finitely many calls; the source has no bound and would retry for ever.
- TcpStream.ReceiveExact: the same assumption; blocking inside one call is not modelled, a call answers or never returns.
- ConnectTimeout.DoConnectTimeout: assumes that a mode switch that succeeds leaves errno alone; the source reads the errno of `connect` after it.
- ConnectTimeout.WaitUntilReady: assumes a clock that never goes back, which `high_resolution_clock` need not be, and that only finitely many early returns of `poll` take no time at all.
- Sockets.NewBoundSocket: closing may change errno before it is read, so for a failing step after the first the error is that of errno after closing, whatever it is; the one-time start-up, which cannot fail on Unix, is not a step.
- Transfer.EndToEnd: one sending and one receiving thread per direction, as the class expects; two threads in one direction are not modelled.
- Name resolution (src/Resolver.cpp and the platform files): foreign calls and code tables, a parameter of the resolve functions.
- The Windows variants under src/win32: the same logic over other system types.
- `pollOne`, socket options, timeouts, `shutdown`, `peek`, local and remote address, the UDP send and receive wrappers: single system calls.
- `message()` texts, hash functions, address predicates such as `isPrivate`, the IPv6 comparison (the same array order as for IPv4) and default constructors: they would only add easy members.
- `SockAddrAny` assignment from raw C structures: the caller's bytes copied whole with the family set.
- Big-endian hosts and layouts with a length byte: include/qsox/Util.hpp and the Linux headers fix the other choice.
