/**
 The socket objects themselves: src/BaseSocket.cpp, `releaseHandle`, and the acquisition sequences of `newSocket`,
 `newBoundSocket`, `TcpListener::bind`, `TcpListener::accept`, `TcpStream::connectInternal` and `UdpSocket::bind`,
 each shown to be a run of the ownership machine.
 */
module Sockets {
  import opened Wrappers
  import opened NetError
  import opened Descriptors
  import ConnectTimeout

  /** The system calls that set a socket up. */
  datatype SetUp = GetDescriptor | AllowV4 | Bind | Listen

  /** What one of them was answered: a descriptor, that it is done, or an errno. */
  datatype Reply = Granted(fd: int) | Done(what: SetUp) | Denied(what: SetUp, errno: int)

  function Asked(r: Reply): SetUp {
    match r
    case Granted(_) => GetDescriptor
    case Done(what) => what
    case Denied(what, _) => what
  }

  /**
   The answers to an acquisition that makes the calls in `plan`: each is made once the one before it has succeeded, and
   the acquisition fails exactly if a call does, which is the last then.
   */
  ghost predicate InOrder(replies: seq<Reply>, plan: seq<SetUp>, ok: bool) {
    && 0 < |replies| <= |plan|
    && (forall i :: 0 <= i < |replies| ==> Asked(replies[i]) == plan[i])
    && (forall i :: 0 <= i < |replies| - 1 ==> !replies[i].Denied?)
    && (ok <==> !replies[|replies| - 1].Denied?)
    && (ok ==> |replies| == |plan|)
  }

  /** The kernel's descriptor table; every answer it may give is left open. */
  class Kernel {
    var open: set<int>
    ghost var log: seq<Event>
    ghost var replies: seq<Reply>
    var errno: int

    /** `socket()` or `accept()`: -1, or any number that is not open. */
    method NewDescriptor() returns (fd: int)
      modifies this
      ensures fd == INVALID_FD || (fd >= 0 && fd !in old(open))
      ensures open == old(open) + (if fd == INVALID_FD then {} else {fd})
      ensures log == old(log) + (if fd == INVALID_FD then [] else [Opened(fd)])
      ensures replies == old(replies) + [if fd == INVALID_FD then Denied(GetDescriptor, errno) else Granted(fd)]
    {
      errno := *;
      fd := *;
      if fd < 0 || fd in open {
        replies := replies + [Denied(GetDescriptor, errno)];
        return INVALID_FD;
      }
      open, log, replies := open + {fd}, log + [Opened(fd)], replies + [Granted(fd)];
    }

    method Close(fd: int)
      modifies this
      ensures open == old(open) - {fd} && log == old(log) + [Closed(fd)] && replies == old(replies)
    {
      open, log, errno := open - {fd}, log + [Closed(fd)], *;
    }

    /** `setsockopt`, `bind` or `listen`, for its success or failure alone. */
    method Attempt(what: SetUp) returns (ok: bool)
      modifies this`errno, this`replies
      ensures replies == old(replies) + [if ok then Done(what) else Denied(what, errno)]
    {
      errno, ok := *, *;
      replies := replies + [if ok then Done(what) else Denied(what, errno)];
    }
  }

  class BaseSocket {
    var fd: int

    constructor (fd: int)
      ensures this.fd == fd
    {
      this.fd := fd;
    }

    /** The move constructor. */
    constructor Move(other: BaseSocket)
      modifies other
      ensures fd == old(other.fd) && other.fd == INVALID_FD
    {
      fd := other.fd;
      new;
      other.fd := INVALID_FD;
    }

    /** Move assignment, from itself too. */
    method Assign(other: BaseSocket, k: Kernel, ghost table: map<nat, BaseSocket>, ghost p: Process,
                  ghost id: nat, ghost src: nat)
      requires Represents(k, table, p)
      requires id in table && src in table && table[id] == this && table[src] == other
      modifies this, other, k
      ensures Represents(k, table, Apply(p, MoveAssign(id, src))) && k.replies == old(k.replies)
      ensures if this == other then fd == old(fd) && k.log == old(k.log)
              else fd == old(other.fd) && other.fd == INVALID_FD && k.log == old(k.log) + Closing(old(fd))
    {
      assert k.log + [] == k.log;
      if this != other {
        if fd != INVALID_FD {
          k.Close(fd);
        }
        fd := other.fd;
        other.fd := INVALID_FD;
      }
    }

    /** The destructor; the object leaves the table. */
    method Destroy(k: Kernel, ghost table: map<nat, BaseSocket>, ghost p: Process, ghost id: nat)
      requires Represents(k, table, p) && id in table && table[id] == this
      modifies k
      ensures Represents(k, table - {id}, Apply(p, Descriptors.Destroy(id))) && k.replies == old(k.replies)
      ensures k.log == old(k.log) + Closing(fd)
    {
      assert k.log + [] == k.log;
      if fd != INVALID_FD {
        k.Close(fd);
      }
    }

    /** `TcpStream::releaseHandle`. */
    method ReleaseHandle(k: Kernel, ghost table: map<nat, BaseSocket>, ghost p: Process, ghost id: nat) returns (r: int)
      requires Represents(k, table, p) && id in table && table[id] == this
      modifies this
      ensures Represents(k, table, Apply(p, Descriptors.ReleaseHandle(id)))
      ensures r == old(fd) && fd == INVALID_FD
      ensures Apply(p, Descriptors.ReleaseHandle(id)).released == p.released + if r == INVALID_FD then {} else {r}
    {
      r := fd;
      fd := INVALID_FD;
    }
  }

  /** The objects in `table`, one per name, hold what the machine says, and the kernel agrees with it. */
  ghost predicate Represents(k: Kernel, table: map<nat, BaseSocket>, p: Process)
    reads k, table.Values
  {
    && p.open == k.open && p.log == k.log
    && p.live.Keys == table.Keys
    && (forall i :: i in table ==> p.live[i] == table[i].fd)
    && (forall i, j :: i in table && j in table && i != j ==> table[i] != table[j])
  }

  /** `Ok(std::move(socket))`: the local object is moved into the result and then destroyed. */
  method MoveOut(local: BaseSocket, k: Kernel, ghost table: map<nat, BaseSocket>, ghost p: Process,
                 ghost id: nat, ghost result: nat)
    returns (r: BaseSocket, ghost q: Process)
    requires Represents(k, table, p) && id in table && table[id] == local && result !in table
    requires local.fd != INVALID_FD
    modifies local, k
    ensures fresh(r) && RunOps(p, [MoveConstruct(result, id)] + [Descriptors.Destroy(id)]) == Some(q)
    ensures Represents(k, table[result := r] - {id}, q) && q.open == p.open && q.live[result] == p.live[id]
    ensures k.replies == old(k.replies) && r.fd == old(local.fd) && k.log == old(k.log)
  {
    r := new BaseSocket.Move(local);
    ghost var table' := table[result := r];
    q := Apply(p, MoveConstruct(result, id));
    assert Represents(k, table', q);
    local.Destroy(k, table', q, id);
    RunFirst(p, MoveConstruct(result, id), [Descriptors.Destroy(id)]);
    RunFirst(q, Descriptors.Destroy(id), []);
    q := Apply(q, Descriptors.Destroy(id));
  }

  /**
   The outcome of an acquisition, as a run of the machine: on failure the descriptors open are those open before, on
   success there is one socket more, and it owns the one new descriptor.
   */
  ghost predicate Acquired(before: Process, after: Process, ops: seq<Op>, ok: bool, result: nat) {
    && RunOps(before, ops) == Some(after)
    && after.released == before.released
    && (!ok ==> after.open == before.open && after.live == before.live)
    && (ok ==>
          && result in after.live && after.live - {result} == before.live
          && after.live[result] !in before.open && after.open == before.open + {after.live[result]})
  }

  /** A descriptor that was opened and closed again, or none at all (-1). */
  function Undone(tried: int): seq<Event> {
    if tried == INVALID_FD then [] else [Opened(tried), Closed(tried)]
  }

  lemma UndoneIsRun(p: Process, tried: int, local: nat) returns (ops: seq<Op>)
    requires local !in p.live && (tried == INVALID_FD || (tried >= 0 && tried !in p.open))
    ensures Acquired(p, p.(log := p.log + Undone(tried)), ops, false, local)
  {
    ops := [];
    assert p.log + [] == p.log;
    if tried != INVALID_FD {
      ops := [Open(local, tried)] + [Descriptors.Destroy(local)];
      var q := Apply(p, Open(local, tried));
      RunFirst(p, Open(local, tried), [Descriptors.Destroy(local)]);
      RunFirst(q, Descriptors.Destroy(local), []);
      assert q.live - {local} == p.live && q.open - {tried} == p.open;
      assert p.log + [Opened(tried)] + [Closed(tried)] == p.log + Undone(tried);
      assert Apply(q, Descriptors.Destroy(local)) == p.(log := p.log + Undone(tried));
    }
  }

  lemma AcquiredIsRun(p: Process, fd: int, local: nat, result: nat) returns (ops: seq<Op>)
    requires local !in p.live && result !in p.live && local != result && fd >= 0 && fd !in p.open
    ensures var q := Apply(p, Open(local, fd));
            var r := Apply(q, MoveConstruct(result, local));
            Acquired(p, Apply(r, Descriptors.Destroy(local)), ops, true, result)
  {
    var rest := [MoveConstruct(result, local)] + [Descriptors.Destroy(local)];
    ops := [Open(local, fd)] + rest;
    var o := Apply(p, Open(local, fd));
    var q := Apply(o, MoveConstruct(result, local));
    RunFirst(p, Open(local, fd), rest);
    RunFirst(o, MoveConstruct(result, local), [Descriptors.Destroy(local)]);
    RunFirst(q, Descriptors.Destroy(local), []);
    assert q.live - {local} - {result} == p.live;
  }

  /** A local object around a fresh descriptor, moved out as the result. */
  method Adopt(stream: BaseSocket, k: Kernel, ghost table: map<nat, BaseSocket>, ghost p: Process,
               ghost local: nat, ghost result: nat)
    returns (r: BaseSocket, ghost q: Process, ghost ops: seq<Op>)
    requires stream.fd >= 0 && stream.fd !in p.open && p.live.Keys == table.Keys
    requires local !in table && result !in table && local != result
    requires Represents(k, table[local := stream], Apply(p, Open(local, stream.fd)))
    modifies stream, k
    ensures fresh(r) && Represents(k, table[result := r], q) && Acquired(p, q, ops, true, result)
    ensures r.fd == q.live[result] == old(stream.fd) && k.replies == old(k.replies) && k.log == old(k.log)
  {
    ghost var fd, with := stream.fd, table[local := stream];
    ghost var taken := Apply(p, Open(local, fd));
    r, q := MoveOut(stream, k, with, taken, local, result);
    RunFirst(taken, MoveConstruct(result, local), [Descriptors.Destroy(local)]);
    RunFirst(Apply(taken, MoveConstruct(result, local)), Descriptors.Destroy(local), []);
    ops := AcquiredIsRun(p, fd, local, result);
    assert with[result := r] - {local} == table[result := r];
  }

  /** `newSocket` (its one-time start-up always succeeds on Unix) and `newBoundSocket`; a bare descriptor is returned. */
  method NewBoundSocket(k: Kernel, v6: bool) returns (r: Result<int, Error>, ghost tried: int, ghost replies: seq<Reply>)
    modifies k
    ensures r.Ok? ==> r.value >= 0 && r.value !in old(k.open)
    ensures r.Ok? ==> k.open == old(k.open) + {r.value} && k.log == old(k.log) + [Opened(r.value)]
    ensures tried == INVALID_FD || (tried >= 0 && tried !in old(k.open))
    ensures r.Err? ==> k.open == old(k.open) && k.log == old(k.log) + Undone(tried)
    ensures k.replies == old(k.replies) + replies
    ensures InOrder(replies, [GetDescriptor] + (if v6 then [AllowV4] else []) + [Bind], r.Ok?)
    ensures if replies[0].Denied? then tried == INVALID_FD && r == Err(LastOsError(replies[0].errno))
            else replies[0] == Granted(if r.Ok? then r.value else tried)
    ensures r.Err? ==> r == Err(LastOsError(k.errno))
  {
    tried := INVALID_FD;
    var sock := k.NewDescriptor();
    if sock == INVALID_FD {
      return Err(LastOsError(k.errno)), tried, [Denied(GetDescriptor, k.errno)];
    }
    replies := [Granted(sock)];
    if v6 {
      var dual := k.Attempt(AllowV4);
      replies := replies + [if dual then Done(AllowV4) else Denied(AllowV4, k.errno)];
      if !dual {
        k.Close(sock);
        return Err(LastOsError(k.errno)), sock, replies;
      }
    }
    var bound := k.Attempt(Bind);
    replies := replies + [if bound then Done(Bind) else Denied(Bind, k.errno)];
    if !bound {
      k.Close(sock);
      return Err(LastOsError(k.errno)), sock, replies;
    }
    return Ok(sock), tried, replies;
  }

  /** `TcpListener::bind`. */
  method BindListener(k: Kernel, v6: bool, ghost table: map<nat, BaseSocket>, ghost p: Process,
                      ghost local: nat, ghost result: nat)
    returns (r: BaseSocket?, error: Option<Error>, ghost q: Process, ghost ops: seq<Op>, ghost replies: seq<Reply>)
    requires Represents(k, table, p) && local !in table && result !in table && local != result
    modifies k
    ensures Acquired(p, q, ops, r != null, result)
    ensures if r == null then Represents(k, table, q) else fresh(r) && Represents(k, table[result := r], q)
    ensures k.replies == old(k.replies) + replies
    ensures InOrder(replies, [GetDescriptor] + (if v6 then [AllowV4] else []) + [Bind] + [Listen], r != null)
    ensures r != null ==> replies[0] == Granted(q.live[result])
    ensures error == if r == null then Some(LastOsError(k.errno)) else None
  {
    var bound;
    ghost var tried;
    bound, tried, replies := NewBoundSocket(k, v6);
    if bound.Ok? {
      var sock := bound.value;
      var listening := k.Attempt(Listen);
      replies := replies + [if listening then Done(Listen) else Denied(Listen, k.errno)];
      if listening {
        var listener := new BaseSocket(sock);
        r, q, ops := Adopt(listener, k, table, p, local, result);
        error := None;
        return;
      }
      k.Close(sock);
      error := Some(LastOsError(k.errno));
      tried := sock;
      assert p.log + [Opened(sock)] + [Closed(sock)] == p.log + Undone(sock);
    } else {
      error := Some(bound.error);
    }
    r, q := null, p.(log := p.log + Undone(tried));
    ops := UndoneIsRun(p, tried, local);
  }

  /** `UdpSocket::bind`, which also notes the family of the address. */
  method BindUdp(k: Kernel, v6: bool, ghost table: map<nat, BaseSocket>, ghost p: Process,
                 ghost local: nat, ghost result: nat)
    returns (r: BaseSocket?, error: Option<Error>, ipv6: bool, ghost q: Process, ghost ops: seq<Op>,
             ghost replies: seq<Reply>)
    requires Represents(k, table, p) && local !in table && result !in table && local != result
    modifies k
    ensures Acquired(p, q, ops, r != null, result) && (r != null ==> ipv6 == v6)
    ensures if r == null then Represents(k, table, q) else fresh(r) && Represents(k, table[result := r], q)
    ensures k.replies == old(k.replies) + replies
    ensures InOrder(replies, [GetDescriptor] + (if v6 then [AllowV4] else []) + [Bind], r != null)
    ensures r != null ==> replies[0] == Granted(q.live[result])
    ensures error == if r == null then Some(LastOsError(k.errno)) else None
  {
    ipv6 := false;
    var bound;
    ghost var tried;
    bound, tried, replies := NewBoundSocket(k, v6);
    if bound.Ok? {
      var sock := new BaseSocket(bound.value);
      ipv6, error := v6, None;
      r, q, ops := Adopt(sock, k, table, p, local, result);
    } else {
      error := Some(bound.error);
      r, q := null, p.(log := p.log + Undone(tried));
      ops := UndoneIsRun(p, tried, local);
    }
  }

  /** `TcpListener::accept`: the accepted descriptor is wrapped at once, then moved into the pair. */
  method Accept(k: Kernel, ghost table: map<nat, BaseSocket>, ghost p: Process, ghost local: nat, ghost result: nat)
    returns (r: BaseSocket?, error: Option<Error>, ghost q: Process, ghost ops: seq<Op>, ghost reply: Reply)
    requires Represents(k, table, p) && local !in table && result !in table && local != result
    modifies k
    ensures Acquired(p, q, ops, r != null, result)
    ensures if r == null then Represents(k, table, q) else fresh(r) && Represents(k, table[result := r], q)
    ensures k.replies == old(k.replies) + [reply]
    ensures if r == null then reply.Denied? && error == Some(LastOsError(reply.errno))
            else reply == Granted(q.live[result]) && error == None
  {
    var clientSock := k.NewDescriptor();
    if clientSock == INVALID_FD {
      reply, error := Denied(GetDescriptor, k.errno), Some(LastOsError(k.errno));
      r, q := null, p.(log := p.log + Undone(INVALID_FD));
      ops := UndoneIsRun(p, INVALID_FD, local);
    } else {
      reply, error := Granted(clientSock), None;
      var stream := new BaseSocket(clientSock);
      r, q, ops := Adopt(stream, k, table, p, local, result);
    }
  }

  /** The choice `connectInternal` makes between its two ways of connecting. */
  method ConnectAs(h: ConnectTimeout.Host, nb: bool, timeout: int)
    returns (r: Result<(), Error>, ghost calls: seq<ConnectTimeout.Call>, ghost c: ConnectTimeout.Course)
    requires -ConnectTimeout.INT_MAX - 1 <= timeout <= ConnectTimeout.INT_MAX
    requires !h.nonBlocking
    modifies h
    ensures h.calls == old(h.calls) + calls && ConnectsWith(calls, c, nb, timeout, r)
    ensures r.Ok? ==> h.nonBlocking == nb
  {
    c := ConnectTimeout.Course([], h.now, [], ConnectTimeout.Connected);
    if !nb && timeout > 0 {
      r, calls, c := ConnectTimeout.DoConnectTimeout(h, timeout);
      ConnectTimeout.ReportMeaning(c.exit);
    } else {
      r, calls := ConnectTimeout.DoConnect(h, nb);
    }
  }

  /**
   `TcpStream::connectInternal`: with a timeout through `doConnectTimeout`, otherwise through `doConnect`, and the
   destructor of the early stream closes the descriptor when either fails. `h` is the connection's side of the kernel;
   a new socket is blocking, and a connected one is non-blocking exactly if that was asked for. The error is that of
   the refused descriptor, or else what the calls on the connection, all of them in `calls`, make of it.
   */
  method ConnectInternal(k: Kernel, h: ConnectTimeout.Host, nb: bool, timeout: int,
                         ghost table: map<nat, BaseSocket>, ghost p: Process, ghost local: nat, ghost result: nat)
    returns (r: BaseSocket?, error: Option<Error>, ghost q: Process, ghost ops: seq<Op>,
             ghost reply: Reply, ghost calls: seq<ConnectTimeout.Call>, ghost c: ConnectTimeout.Course)
    requires Represents(k, table, p) && local !in table && result !in table && local != result
    requires -ConnectTimeout.INT_MAX - 1 <= timeout <= ConnectTimeout.INT_MAX
    modifies k, h
    ensures Acquired(p, q, ops, r != null, result)
    ensures if r == null then Represents(k, table, q) else fresh(r) && Represents(k, table[result := r], q)
    ensures r == null <==> error.Some?
    ensures r != null ==> h.nonBlocking == nb && reply == Granted(q.live[result])
    ensures k.replies == old(k.replies) + [reply] && h.calls == old(h.calls) + calls
    ensures if reply.Denied? then calls == [] && error == Some(LastOsError(reply.errno))
            else reply.Granted? && ConnectsWith(calls, c, nb, timeout, if error.None? then Ok(()) else Err(error.value))
  {
    calls, c := [], ConnectTimeout.Course([], h.now, [], ConnectTimeout.Connected);
    ghost var tried := INVALID_FD;
    var socket := k.NewDescriptor();
    if socket == INVALID_FD {
      reply, error := Denied(GetDescriptor, k.errno), Some(LastOsError(k.errno));
    } else {
      reply := Granted(socket);
      var stream := new BaseSocket(socket);
      h.nonBlocking := false;
      var connected;
      connected, calls, c := ConnectAs(h, nb, timeout);
      if connected.Ok? {
        r, q, ops := Adopt(stream, k, table, p, local, result);
        error := None;
        return;
      }
      error := Some(connected.error);
      Abandon(stream, k, table, p, local);
      tried := socket;
    }
    r, q := null, p.(log := p.log + Undone(tried));
    ops := UndoneIsRun(p, tried, local);
  }

  /** The calls of a connect with or without a timeout, and what it comes to. */
  ghost predicate ConnectsWith(calls: seq<ConnectTimeout.Call>, c: ConnectTimeout.Course, nb: bool, timeout: int,
                               r: Result<(), Error>)
  {
    if nb || timeout <= 0 then ConnectTimeout.Connects(calls, nb, r)
    else calls == c.Calls() && ConnectTimeout.TimedConnect(c, timeout) && r == ConnectTimeout.Report(c.exit)
  }

  /** The early stream goes out of scope: its destructor puts the open set back. */
  method Abandon(stream: BaseSocket, k: Kernel, ghost table: map<nat, BaseSocket>, ghost p: Process, ghost local: nat)
    requires stream.fd >= 0 && stream.fd !in p.open && p.live.Keys == table.Keys && local !in table
    requires Represents(k, table[local := stream], Apply(p, Open(local, stream.fd)))
    modifies k
    ensures Represents(k, table, p.(log := p.log + Undone(stream.fd))) && k.replies == old(k.replies)
  {
    ghost var with := table[local := stream];
    stream.Destroy(k, with, Apply(p, Open(local, stream.fd)), local);
    assert with - {local} == table;
    assert p.log + [Opened(stream.fd)] + [Closed(stream.fd)] == p.log + Undone(stream.fd);
  }

  // ---- Whole histories of calls ----

  /** One call: a single operation on a socket object, or a whole bind, accept or connect. */
  ghost predicate CallStep(p: Process, q: Process) {
    || (exists op :: Enabled(p, op) && q == Apply(p, op))
    || (exists ops, ok, result :: Acquired(p, q, ops, ok, result))
  }

  /** The states a program goes through from the start, call by call. */
  ghost predicate History(states: seq<Process>) {
    && states != [] && states[0] == Empty
    && forall i :: 0 < i < |states| ==> CallStep(states[i - 1], states[i])
  }

  lemma CallIsRun(p: Process, q: Process) returns (ops: seq<Op>)
    requires CallStep(p, q)
    ensures RunOps(p, ops) == Some(q)
  {
    if op :| Enabled(p, op) && q == Apply(p, op) {
      ops := [op] + [];
      RunFirst(p, op, []);
    } else {
      var run, ok, result :| Acquired(p, q, run, ok, result);
      ops := run;
    }
  }

  lemma {:induction false} HistoryIsRun(states: seq<Process>) returns (ops: seq<Op>)
    requires History(states)
    ensures RunOps(Empty, ops) == Some(states[|states| - 1])
  {
    if |states| == 1 {
      ops := [];
    } else {
      var last := |states| - 1;
      var before := HistoryIsRun(states[..last]);
      var call := CallIsRun(states[last - 1], states[last]);
      RunAppend(Empty, before, call);
      ops := before + call;
    }
  }

  /**
   Ownership over every history of calls, binds, accepts and connects among them, failing or not: at its end no two
   live sockets own one descriptor, open means owned or released and not both, and every descriptor was closed as often
   as it was opened, or once less while it is open.
   */
  lemma OwnershipOverCalls(states: seq<Process>, i: nat, j: nat, fd: int)
    requires History(states)
    ensures var p := states[|states| - 1];
            && (i in p.live && j in p.live && i != j && p.live[i] != INVALID_FD ==> p.live[i] != p.live[j])
            && OpenAfter(p.log) == Some(p.open)
            && (fd in p.open <==> fd != INVALID_FD && (fd in p.released || Owned(p, fd)))
            && !(fd != INVALID_FD && fd in p.released && Owned(p, fd))
            && Count(p.log, Opened(fd)) == Count(p.log, Closed(fd)) + if fd in p.open then 1 else 0
  {
    var ops := HistoryIsRun(states);
    Ownership(ops, i, j, fd);
  }

  /** A run from the start is continued by any acquisition, so everything shown of runs holds after it. */
  lemma AcquisitionExtendsRun(before: seq<Op>, p: Process, q: Process, ops: seq<Op>, ok: bool, result: nat)
    requires RunOps(Empty, before) == Some(p) && Acquired(p, q, ops, ok, result)
    ensures RunOps(Empty, before + ops) == Some(q) && Inv(q)
    ensures ok ==> forall i :: i in q.live && q.live[i] == q.live[result] ==> i == result
  {
    RunAppend(Empty, before, ops);
    assert Inv(Empty);
    RunKeepsInv(Empty, before + ops);
    if ok {
      assert q.live[result] in q.open;
    }
  }
}
