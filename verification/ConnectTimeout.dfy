/**
 src/unix/TcpStream.cpp: connecting with a deadline. The clock counts nanoseconds and never goes back; `connect`,
 `poll` and the mode switch may answer anything.
 */
module ConnectTimeout {
  import opened Wrappers
  import opened NetError

  const MS: int := 1_000_000
  const INT_MAX: int := 0x7fff_ffff

  /** Asking for the pending error: its number as the system counts (0 for none), or the errno of the asking. */
  type Pending = Result<int, int>

  /** One system call and its answer; a `connect` with the time it came back, a `poll` with the time it was asked at. */
  datatype Call =
    | Switched(on: bool, failure: Option<int>)
    | Tried(res: int, errno: int, at: int)
    | Polled(readAt: int, wait: int, res: int, errno: int, trouble: bool)
    | Asked(pending: Pending)
  {
    /** A `connect` that a signal cut short. */
    predicate Interrupted() {
      Tried? && res == -1 && errno == EINTR
    }

    /** A `poll` after which the loop goes on: the wait was over, or a signal came. */
    predicate Idle() {
      Polled? && (res == 0 || (res == -1 && errno == EINTR))
    }
  }

  /** The connection's side of the kernel, and every call made to it. */
  class Host {
    var now: int
    var errno: int
    var nonBlocking: bool
    /** How many more calls may be interrupted, or come back early, without any time having passed. */
    var idleReturns: nat
    ghost var calls: seq<Call>

    method SetNonBlocking(on: bool) returns (r: Result<(), Error>)
      modifies this`nonBlocking, this`errno, this`calls
      ensures calls == old(calls) + [Switched(on, if r.Ok? then None else Some(errno))]
      ensures r.Ok? ==> nonBlocking == on && errno == old(errno)
      ensures r.Err? ==> nonBlocking == old(nonBlocking) && r == Err(LastOsError(errno))
    {
      if * {
        nonBlocking, calls := on, calls + [Switched(on, None)];
        return Ok(());
      }
      errno := *;
      calls := calls + [Switched(on, Some(errno))];
      return Err(LastOsError(errno));
    }

    method Pass()
      modifies this`now
      ensures old(now) <= now
    {
      var dt: nat :| dt >= 0;
      now := now + dt;
    }

    method Connect() returns (res: int)
      modifies this`now, this`errno, this`idleReturns, this`calls
      ensures calls == old(calls) + [Tried(res, errno, now)]
      ensures old(now) <= now && idleReturns <= old(idleReturns)
      ensures res == -1 && errno == EINTR ==> idleReturns < old(idleReturns)
    {
      Pass();
      errno, res := *, *;
      if res == -1 && errno == EINTR {
        if idleReturns == 0 {
          res := 0;
        } else {
          idleReturns := idleReturns - 1;
        }
      }
      calls := calls + [Tried(res, errno, now)];
    }

    /** Comes back with a result, or because the time is over (0) or a signal came: then time passed or it was idle. */
    method Poll(wait: int) returns (res: int, trouble: bool)
      requires wait > 0
      modifies this`now, this`errno, this`idleReturns, this`calls
      ensures calls == old(calls) + [Polled(old(now), wait, res, errno, trouble)]
      ensures old(now) <= now && idleReturns <= old(idleReturns)
      ensures res == 0 || (res == -1 && errno == EINTR) ==> now > old(now) || idleReturns < old(idleReturns)
    {
      ghost var readAt := now;
      Pass();
      errno, trouble, res := *, *, *;
      if res == 0 || (res == -1 && errno == EINTR) {
        if idleReturns > 0 {
          idleReturns := idleReturns - 1;
        } else {
          now := now + 1;
        }
      }
      calls := calls + [Polled(readAt, wait, res, errno, trouble)];
    }

    /** `getSocketError`. */
    method GetSocketError() returns (e: Error, ghost pending: Pending)
      modifies this`errno, this`calls
      ensures e == PendingError(pending) && calls == old(calls) + [Asked(pending)]
    {
      var number: int := *;
      if * {
        errno := *;
        pending := Err(errno);
        calls := calls + [Asked(pending)];
        return LastOsError(errno), pending;
      }
      pending := Ok(number);
      calls := calls + [Asked(pending)];
      return if number == 0 then Coded(Success) else FromOs(number), pending;
    }
  }

  function PendingError(pending: Pending): Error {
    match pending
    case Err(errno) => LastOsError(errno)
    case Ok(number) => if number == 0 then Coded(Success) else FromOs(number)
  }

  // ---- doConnect ----

  /** The answer to a connect is decided by the last of the attempts, all of those before it having been cut short. */
  ghost predicate Attempts(calls: seq<Call>, nonBlocking: bool, r: Result<(), Error>) {
    && calls != [] && (forall i :: 0 <= i < |calls| - 1 ==> calls[i].Interrupted())
    && var last := calls[|calls| - 1];
       && last.Tried? && !last.Interrupted()
       && r == if last.res != -1 || last.errno == EISCONN || (nonBlocking && last.errno == EINPROGRESS)
               then Ok(()) else Err(LastOsError(last.errno))
  }

  /** The calls of a whole `doConnect`: the mode switch when non-blocking, and unless it fails, the attempts. */
  ghost predicate Connects(calls: seq<Call>, nonBlocking: bool, r: Result<(), Error>) {
    if !nonBlocking then Attempts(calls, false, r)
    else if SwitchFailed(calls) then calls == [calls[0]] && calls[0].on && r == Err(LastOsError(calls[0].failure.value))
    else calls != [] && calls[0] == Switched(true, None) && Attempts(calls[1..], true, r)
  }

  predicate SwitchFailed(calls: seq<Call>) {
    calls != [] && calls[0].Switched? && calls[0].failure.Some?
  }

  /**
   Whatever the attempts are answered, a signal or an established connection is never reported as an error, in either
   mode, and a connection in progress not when non-blocking, where that error can only stand for EALREADY.
   */
  lemma AttemptsMeaning(calls: seq<Call>, nonBlocking: bool, r: Result<(), Error>)
    requires Attempts(calls, nonBlocking, r)
    ensures r != Err(LastOsError(EINTR)) && r != Err(Coded(IsConnected))
    ensures nonBlocking && r == Err(Coded(InProgress)) ==> calls[|calls| - 1].errno == EALREADY
  {
    var last := calls[|calls| - 1];
    ErrnoMeaning(last.errno, EINTR);
    ErrnoMeaning(last.errno, EISCONN);
    ErrnoMeaning(last.errno, EINPROGRESS);
  }

  /** `doConnect`. The mode is the one asked for, unless that switch failed. */
  method DoConnect(h: Host, nonBlocking: bool) returns (r: Result<(), Error>, ghost calls: seq<Call>)
    modifies h
    ensures h.calls == old(h.calls) + calls && Connects(calls, nonBlocking, r)
    ensures h.nonBlocking == if nonBlocking && !SwitchFailed(calls) then true else old(h.nonBlocking)
    ensures old(h.now) <= h.now
  {
    calls := [];
    if nonBlocking {
      var mode := h.SetNonBlocking(true);
      calls := [Switched(true, if mode.Ok? then None else Some(h.errno))];
      if mode.Err? {
        return mode, calls;
      }
    }
    ghost var first := calls;
    ghost var tries := [];
    while true
      invariant calls == first + tries && h.calls == old(h.calls) + calls && old(h.now) <= h.now
      invariant forall i :: 0 <= i < |tries| ==> tries[i].Interrupted()
      invariant h.nonBlocking == if nonBlocking then true else old(h.nonBlocking)
      decreases h.idleReturns
    {
      var cres := h.Connect();
      tries := tries + [Tried(cres, h.errno, h.now)];
      calls := first + tries;
      assert nonBlocking ==> calls[1..] == tries;
      if cres == -1 {
        if nonBlocking && h.errno == EINPROGRESS {
          return Ok(()), calls;
        }
        if h.errno == EINTR {
          continue;
        }
        if h.errno == EISCONN {
          return Ok(()), calls;
        }
        return Err(LastOsError(h.errno)), calls;
      }
      return Ok(()), calls;
    }
  }

  // ---- doConnectTimeout ----

  /** Why `doConnectTimeout` returned; the first two are the failing switches to non-blocking and back. */
  datatype Exit =
    | ModeOnFailed(errno: int) | ModeOffFailed(errno: int) | Connected | Refused(errno: int)
    | DeadlinePassed | PollFailed(errno: int) | SocketError(pending: Pending) | Ready
  {
    predicate InLoop() {
      DeadlinePassed? || PollFailed? || SocketError? || Ready?
    }
  }

  function Report(exit: Exit): Result<(), Error> {
    match exit
    case Connected => Ok(())
    case Ready => Ok(())
    case DeadlinePassed => Err(Coded(TimedOut))
    case SocketError(pending) => Err(PendingError(pending))
    case ModeOnFailed(errno) => Err(LastOsError(errno))
    case ModeOffFailed(errno) => Err(LastOsError(errno))
    case Refused(errno) => Err(LastOsError(errno))
    case PollFailed(errno) => Err(LastOsError(errno))
  }

  /** A whole call: what it did before the wait loop, the clock when that began, the polls, and why it ended. */
  datatype Course = Course(opening: seq<Call>, start: int, polls: seq<Call>, exit: Exit) {
    function Calls(): seq<Call> {
      opening + LoopCalls(polls, exit)
    }
  }

  function LoopCalls(polls: seq<Call>, exit: Exit): seq<Call> {
    polls + if exit.SocketError? then [Asked(exit.pending)] else []
  }

  /**
   Switch on, one connect, switch back, whatever connect answered; only a failing switch is the end before that. Here
   the one connect decides: a signal or an established connection is an error, unlike in `doConnect`.
   */
  ghost predicate Opened(calls: seq<Call>, exit: Exit) {
    if exit.ModeOnFailed? then calls == [Switched(true, Some(exit.errno))]
    else
      && |calls| == 3 && calls[0] == Switched(true, None) && calls[1].Tried?
      && calls[2] == Switched(false, if exit.ModeOffFailed? then Some(exit.errno) else None)
      && (exit.Connected? ==> calls[1].res != -1)
      && (exit.Refused? ==> calls[1].res == -1 && calls[1].errno == exit.errno != EINPROGRESS)
      && (exit.InLoop() ==> calls[1].res == -1 && calls[1].errno == EINPROGRESS)
  }

  /** Every poll but the last left the loop going, and the last is why it ended, unless the deadline was. */
  ghost predicate Waited(polls: seq<Call>, exit: Exit) {
    && (forall i :: 0 <= i < |polls| - 1 ==> polls[i].Idle())
    && (polls == [] ==> exit == DeadlinePassed)
    && (polls != [] ==>
          var last := polls[|polls| - 1];
          && last.Polled?
          && match exit
             case DeadlinePassed => last.Idle()
             case PollFailed(errno) => last.res == -1 && last.errno == errno != EINTR
             case SocketError(_) => last.res != -1 && last.res != 0 && last.trouble
             case Ready => last.res != -1 && last.res != 0 && !last.trouble
             case _ => false)
  }

  /** The clock for the deadline starts once connect has come back. */
  ghost predicate TimedConnect(c: Course, timeoutMs: int) {
    && Opened(c.opening, c.exit)
    && if c.exit.InLoop() then
         c.opening[1].at <= c.start && Waited(c.polls, c.exit) && WaitsMeetDeadline(c.polls, c.start, timeoutMs)
       else c.polls == []
  }

  lemma WithoutLoop(c: Course, timeoutMs: int)
    requires Opened(c.opening, c.exit) && !c.exit.InLoop() && c.polls == []
    ensures TimedConnect(c, timeoutMs) && c.Calls() == c.opening
  {
    assert LoopCalls([], c.exit) == [];
  }

  lemma SamePrefix(x: seq<Call>, r: seq<Call>, y: seq<Call>, t: seq<Call>)
    requires x + r == y + t && |x| == |y|
    ensures x == y && r == t
  {
    assert x == (x + r)[..|x|] && y == (y + t)[..|x|];
    assert r == (x + r)[|x|..] && t == (y + t)[|x|..];
  }

  /** How many calls come before the loop is seen from the first of them. */
  lemma SameOpening(c: Course, d: Course, timeoutMs: int)
    requires TimedConnect(c, timeoutMs) && TimedConnect(d, timeoutMs) && c.Calls() == d.Calls()
    ensures c.opening == d.opening && LoopCalls(c.polls, c.exit) == LoopCalls(d.polls, d.exit)
  {
    assert c.opening[0] == c.Calls()[0] && d.opening[0] == d.Calls()[0];
    SamePrefix(c.opening, LoopCalls(c.polls, c.exit), d.opening, LoopCalls(d.polls, d.exit));
  }

  /** The calls made leave no choice of the reason for the end, and so none of the answer. */
  lemma CallsDecide(c: Course, d: Course, timeoutMs: int)
    requires TimedConnect(c, timeoutMs) && TimedConnect(d, timeoutMs) && c.Calls() == d.Calls()
    ensures c.exit == d.exit && c.opening == d.opening && c.polls == d.polls
  {
    SameOpening(c, d, timeoutMs);
    if c.exit.InLoop() {
      LastLoopCall(c.polls, c.exit);
      LastLoopCall(d.polls, d.exit);
    }
  }

  lemma LastLoopCall(polls: seq<Call>, exit: Exit)
    requires exit.InLoop() && Waited(polls, exit)
    ensures var x := LoopCalls(polls, exit);
            && (exit.SocketError? <==> x != [] && x[|x| - 1].Asked?)
            && (exit.SocketError? ==> x[|x| - 1].pending == exit.pending && polls == x[..|x| - 1])
            && (!exit.SocketError? ==> polls == x)
  {}

  /**
   A timeout is reported at the deadline alone, unless some system call failed with that very error (ETIMEDOUT, 110);
   and the error `Success` exactly when poll saw trouble and no error was pending.
   */
  lemma ReportMeaning(exit: Exit)
    ensures Report(exit) == Err(Coded(TimedOut)) <==>
            exit in {DeadlinePassed, ModeOnFailed(110), ModeOffFailed(110), Refused(110), PollFailed(110),
                     SocketError(Err(110))}
    ensures Report(exit) == Err(Coded(Success)) <==> exit == SocketError(Ok(0))
    ensures Report(exit).Ok? <==> exit == Connected || exit == Ready
  {
    if exit.ModeOnFailed? || exit.ModeOffFailed? || exit.Refused? || exit.PollFailed? {
      ErrnoMeaning(exit.errno, 110);
    } else if exit.SocketError? && exit.pending.Err? {
      ErrnoMeaning(exit.pending.error, 110);
    }
  }

  /**
   A pending error is reported by its number, never by a code of its own: it is the error that errno would have given
   if and only if that number has no code. So a refused connection (ECONNREFUSED, 111) is not `ConnectionRefused` here.
   */
  lemma PendingMeaning(number: int)
    requires number != 0
    ensures PendingError(Ok(number)) == FromOs(number)
    ensures PendingError(Ok(number)) == LastOsError(number) <==> LastOsError(number).code == Other
    ensures PendingError(Ok(111)) != LastOsError(111)
  {
    ErrnoMeaning(number, number);
  }

  /** A wait is not empty, and the whole milliseconds elapsed and the wait together are the timeout. */
  predicate MeetsDeadline(readAt: int, wait: int, start: int, timeoutMs: int) {
    && 0 < wait <= timeoutMs
    && (readAt - start) / MS + wait == timeoutMs
  }

  /** Such a wait reaches to the deadline, and past it by less than a millisecond. */
  lemma WaitReaches(readAt: int, wait: int, start: int, timeoutMs: int)
    requires MeetsDeadline(readAt, wait, start, timeoutMs)
    ensures start + timeoutMs * MS <= readAt + wait * MS < start + timeoutMs * MS + MS
    ensures readAt < start + timeoutMs * MS
  {}

  ghost predicate WaitsMeetDeadline(polls: seq<Call>, start: int, timeoutMs: int) {
    && (forall i :: 0 <= i < |polls| ==>
          polls[i].Polled? && MeetsDeadline(polls[i].readAt, polls[i].wait, start, timeoutMs))
    && (forall i, j :: 0 <= i < j < |polls| ==> polls[i].wait >= polls[j].wait)
  }

  /** `static_cast<int>` of a 64-bit count. */
  function ToInt32(x: int): int {
    (x + 0x8000_0000) % 0x1_0000_0000 - 0x8000_0000
  }

  /**
   The subtraction in the source is exact and fits an int if and only if the timeout has not run out by more than an
   int can hold: always on a clock that never goes back, and down to `timeoutMs - INT_MAX` on one that does.
   */
  lemma WaitFits(timeoutMs: int, elapsed: int)
    requires 0 < timeoutMs <= INT_MAX && elapsed < timeoutMs
    ensures var time := timeoutMs - ToInt32(elapsed);
            time == timeoutMs - elapsed && 0 < time <= INT_MAX <==> elapsed >= timeoutMs - INT_MAX
  {}

  /** The wait computed from a clock reading before the deadline. */
  lemma ComputedWait(start: int, now: int, timeoutMs: int)
    requires start <= now && 0 < timeoutMs <= INT_MAX
    ensures var elapsed := (now - start) / MS;
            && (elapsed >= timeoutMs ==> now - start >= timeoutMs * MS)
            && (elapsed < timeoutMs ==> MeetsDeadline(now, timeoutMs - ToInt32(elapsed), start, timeoutMs))
  {
    var elapsed := (now - start) / MS;
    if elapsed < timeoutMs {
      WaitFits(timeoutMs, elapsed);
    }
  }

  lemma OneMoreWait(polls: seq<Call>, p: Call, start: int, timeoutMs: int)
    requires WaitsMeetDeadline(polls, start, timeoutMs) && p.Polled? && MeetsDeadline(p.readAt, p.wait, start, timeoutMs)
    requires polls != [] ==> polls[|polls| - 1].readAt <= p.readAt
    ensures WaitsMeetDeadline(polls + [p], start, timeoutMs)
  {
    if polls != [] {
      var last := polls[|polls| - 1];
      assert MeetsDeadline(last.readAt, last.wait, start, timeoutMs);
    }
  }

  lemma LastPoll(polls: seq<Call>, p: Call, exit: Exit)
    requires (forall i :: 0 <= i < |polls| ==> polls[i].Idle()) && Waited([p], exit)
    ensures Waited(polls + [p], exit)
  {
    assert p == [p][0];
  }

  /** The next wait, computed from a new reading of the clock, unless the timeout has elapsed. */
  method NextWait(h: Host, begin: int, timeoutMs: int) returns (time: Option<int>)
    requires 0 < timeoutMs <= INT_MAX && begin <= h.now
    modifies h`now
    ensures old(h.now) <= h.now
    ensures time.None? ==> h.now - begin >= timeoutMs * MS
    ensures time.Some? ==> MeetsDeadline(h.now, time.value, begin, timeoutMs)
  {
    h.Pass();
    var elapsed := (h.now - begin) / MS;
    ComputedWait(begin, h.now, timeoutMs);
    if elapsed >= timeoutMs {
      return None;
    }
    return Some(timeoutMs - ToInt32(elapsed));
  }

  /** The deadline loop, from the clock reading `begin`: it gives up only once the timeout has elapsed since then. */
  method WaitUntilReady(h: Host, begin: int, timeoutMs: int)
    returns (r: Result<(), Error>, ghost exit: Exit, ghost polls: seq<Call>)
    requires 0 < timeoutMs <= INT_MAX && begin <= h.now
    modifies h`now, h`errno, h`idleReturns, h`calls
    ensures old(h.now) <= h.now && h.calls == old(h.calls) + LoopCalls(polls, exit)
    ensures exit.InLoop() && Waited(polls, exit) && WaitsMeetDeadline(polls, begin, timeoutMs)
    ensures r == Report(exit)
    ensures exit == DeadlinePassed ==> h.now - begin >= timeoutMs * MS
  {
    polls := [];
    ghost var deadline := begin + timeoutMs * MS;
    while true
      invariant old(h.now) <= h.now && h.calls == old(h.calls) + polls
      invariant WaitsMeetDeadline(polls, begin, timeoutMs)
      invariant forall i :: 0 <= i < |polls| ==> polls[i].Idle()
      invariant polls != [] ==> polls[|polls| - 1].readAt <= h.now
      decreases (if deadline > h.now then deadline - h.now else 0) + h.idleReturns
    {
      var time := NextWait(h, begin, timeoutMs);
      if time.None? {
        return Err(Coded(TimedOut)), DeadlinePassed, polls;
      }
      ghost var before, readAt := polls, h.now;
      WaitReaches(readAt, time.value, begin, timeoutMs);
      var pollRes, trouble := h.Poll(time.value);
      ghost var p := Polled(readAt, time.value, pollRes, h.errno, trouble);
      OneMoreWait(before, p, begin, timeoutMs);
      polls := before + [p];
      if pollRes == -1 {
        if h.errno != EINTR {
          exit := PollFailed(h.errno);
          LastPoll(before, p, exit);
          return Err(LastOsError(h.errno)), exit, polls;
        }
      } else if pollRes != 0 {
        if trouble {
          ghost var pending;
          var e;
          e, pending := h.GetSocketError();
          exit := SocketError(pending);
          LastPoll(before, p, exit);
          return Err(e), exit, polls;
        }
        LastPoll(before, p, Ready);
        return Ok(()), Ready, polls;
      }
    }
  }

  /**
   Whatever `poll` and the signals do, every wait is positive, and elapsed time plus wait is the timeout, so signals
   never extend the deadline. The socket is left non-blocking exactly when the switch back failed, or the first switch
   failed on a socket that was non-blocking already. Without a positive timeout this is a blocking `doConnect`.
   */
  method DoConnectTimeout(h: Host, timeoutMs: int)
    returns (r: Result<(), Error>, ghost calls: seq<Call>, ghost c: Course)
    requires -INT_MAX - 1 <= timeoutMs <= INT_MAX
    modifies h
    ensures h.calls == old(h.calls) + calls && old(h.now) <= h.now
    ensures timeoutMs <= 0 ==> Connects(calls, false, r) && h.nonBlocking == old(h.nonBlocking)
    ensures timeoutMs > 0 ==> calls == c.Calls() && TimedConnect(c, timeoutMs) && r == Report(c.exit)
    ensures timeoutMs > 0 ==>
              (h.nonBlocking <==> c.exit.ModeOffFailed? || (c.exit.ModeOnFailed? && old(h.nonBlocking)))
    ensures timeoutMs > 0 ==> old(h.now) <= c.start <= h.now
    ensures timeoutMs > 0 && c.exit == DeadlinePassed ==> h.now - c.start >= timeoutMs * MS
  {
    ghost var start := h.now;
    c := Course([], start, [], Connected);
    if timeoutMs <= 0 {
      r, calls := DoConnect(h, false);
      return;
    }
    var mode := h.SetNonBlocking(true);
    if mode.Err? {
      calls := [Switched(true, Some(h.errno))];
      c := Course(calls, start, [], ModeOnFailed(h.errno));
      WithoutLoop(c, timeoutMs);
      return mode, calls, c;
    }
    var cres := h.Connect();
    ghost var tried := Tried(cres, h.errno, h.now);
    mode := h.SetNonBlocking(false);
    if mode.Err? {
      calls := [Switched(true, None), tried, Switched(false, Some(h.errno))];
      c := Course(calls, start, [], ModeOffFailed(h.errno));
      WithoutLoop(c, timeoutMs);
      return mode, calls, c;
    }
    calls := [Switched(true, None), tried, Switched(false, None)];
    assert h.calls == old(h.calls) + calls;
    if cres != -1 {
      c := Course(calls, start, [], Connected);
      WithoutLoop(c, timeoutMs);
      return Ok(()), calls, c;
    }
    if h.errno != EINPROGRESS {
      c := Course(calls, start, [], Refused(h.errno));
      WithoutLoop(c, timeoutMs);
      return Err(LastOsError(h.errno)), calls, c;
    }
    h.Pass();
    var begin := h.now;
    ghost var exit, polls;
    r, exit, polls := WaitUntilReady(h, begin, timeoutMs);
    c := Course(calls, begin, polls, exit);
    calls := c.Calls();
  }
}
