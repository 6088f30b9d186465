/**
 src/TcpStream.cpp: `sendAll` and `receiveExact` over a kernel that moves any non-empty part of what it is
 offered, or interrupts, or fails, while the other end of the connection goes on by itself.
 */
module TcpStream {
  import opened Wrappers
  import opened ByteOrder
  import opened NetError

  // ---- One iteration of either loop ----

  /** What one `::send` or `::recv` answered: a byte count, possibly 0, or -1 and an errno. */
  datatype Answer = Moved(n: nat) | Failed(errno: int)

  datatype Status = Running | Done | Stopped(error: Error)

  /** A loop over `size` bytes, `moved` of which have been transferred. */
  datatype Loop = Loop(size: nat, moved: nat, status: Status)

  function Start(size: nat): Loop {
    Loop(size, 0, if size == 0 then Done else Running)
  }

  /** The answer as `send` and `_receive` report it to the loop. */
  function Report(a: Answer): Result<nat, Error> {
    match a
    case Failed(errno) => Err(LastOsError(errno))
    case Moved(n) => if n == 0 then Err(Coded(ConnectionClosed)) else Ok(n)
  }

  predicate Possible(l: Loop, a: Answer) {
    l.status == Running && l.moved < l.size && (a.Moved? ==> a.n <= l.size - l.moved)
  }

  /** The state of the loop after the kernel's next answer. */
  function Iterate(l: Loop, a: Answer): (l': Loop)
    requires Possible(l, a)
  {
    match Report(a)
    case Ok(n) => Loop(l.size, l.moved + n, if l.moved + n == l.size then Done else Running)
    case Err(e) => if IsInterrupt(e) then l else Loop(l.size, l.moved, Stopped(e))
  }

  /** The loop after a whole sequence of answers, none of which may come after it has finished. */
  function IterateAll(l: Loop, answers: seq<Answer>): Option<Loop>
    decreases |answers|
  {
    if answers == [] then Some(l)
    else if !Possible(l, answers[0]) then None
    else IterateAll(Iterate(l, answers[0]), answers[1..])
  }

  lemma {:induction false} IterateAllAppend(l: Loop, answers: seq<Answer>, a: Answer)
    requires IterateAll(l, answers).Some? && Possible(IterateAll(l, answers).value, a)
    ensures IterateAll(l, answers + [a]) == Some(Iterate(IterateAll(l, answers).value, a))
    decreases |answers|
  {
    if answers != [] {
      IterateAllAppend(Iterate(l, answers[0]), answers[1..], a);
      assert (answers + [a])[1..] == answers[1..] + [a];
    } else {
      assert [a][1..] == [];
    }
  }

  function Total(answers: seq<Answer>): nat {
    if answers == [] then 0 else (if answers[0].Moved? then answers[0].n else 0) + Total(answers[1..])
  }

  /** Does this answer end a loop? A signal does not, and no positive count does before the last byte. */
  predicate Fatal(a: Answer) {
    a == Moved(0) || (a.Failed? && a.errno != EINTR)
  }

  /**
   Over any answers: what was moved is the sum of the counts, the loop is done exactly when that is the size, it is
   stopped exactly when the last answer was fatal, and no earlier answer was.
   */
  lemma {:induction false} LoopMeaning(l: Loop, answers: seq<Answer>)
    requires l.moved <= l.size && l.status == (if l.moved == l.size then Done else Running)
    requires IterateAll(l, answers).Some?
    ensures var f := IterateAll(l, answers).value;
            && f.size == l.size && f.moved == l.moved + Total(answers) <= f.size
            && (f.status == Done <==> f.moved == f.size)
            && (f.status.Stopped? <==> answers != [] && Fatal(answers[|answers| - 1]))
            && (f.status.Stopped? ==>
                  var a := answers[|answers| - 1];
                  f.status.error == if a.Failed? then LastOsError(a.errno) else Coded(ConnectionClosed))
            && (forall i :: 0 <= i < |answers| - 1 ==> !Fatal(answers[i]))
    decreases |answers|
  {
    if answers != [] {
      var l' := Iterate(l, answers[0]);
      if l'.status.Stopped? {
        assert answers[1..] == [];
      } else {
        LoopMeaning(l', answers[1..]);
        assert forall i :: 1 <= i < |answers| ==> answers[i] == answers[1..][i - 1];
      }
    }
  }

  // ---- The connection ----

  /** Both directions of one pipe in the kernel, with everything that ever went in and came out. */
  class Pipe {
    ghost var sent: seq<u8>
    ghost var received: seq<u8>
    /** Everything `::send` and `::recv` answered. */
    ghost var answered: seq<Answer>
    var queue: seq<u8>
    var errno: int
    /** How many more calls signals may interrupt. */
    var interrupts: nat

    ghost predicate Valid()
      reads this
    {
      sent == received + queue
    }

    /** The reading end takes bytes while a sender is between two calls. */
    method OtherEndReads()
      requires Valid()
      modifies this`received, this`queue
      ensures Valid() && old(received) <= received
    {
      var n: nat :| n <= |queue|;
      received := received + queue[..n];
      queue := queue[n..];
    }

    /** The writing end adds bytes while a receiver is between two calls. */
    method OtherEndWrites()
      requires Valid()
      modifies this`sent, this`queue
      ensures Valid() && old(sent) <= sent
    {
      var data: seq<u8> := *;
      sent := sent + data;
      queue := queue + data;
    }

    /** `::send`: takes any part of what is offered, which may be none, or fails. */
    method SendCall(data: seq<u8>) returns (res: int, ghost a: Answer)
      requires Valid() && data != []
      modifies this
      ensures Valid() && received == old(received) && answered == old(answered) + [a]
      ensures a.Moved? ==> res == a.n <= |data| && sent == old(sent) + data[..a.n] && interrupts == old(interrupts)
      ensures a.Failed? ==> res == -1 && errno == a.errno && sent == old(sent)
      ensures a.Failed? && a.errno == EINTR ==> interrupts < old(interrupts)
    {
      if * {
        var n: nat :| n <= |data|;
        sent, queue, answered := sent + data[..n], queue + data[..n], answered + [Moved(n)];
        return n, Moved(n);
      }
      errno := *;
      if errno == EINTR {
        if interrupts == 0 {
          errno := EINTR + 1;
        } else {
          interrupts := interrupts - 1;
        }
      }
      answered := answered + [Failed(errno)];
      return -1, Failed(errno);
    }

    /** `::recv` into `buffer[at..at+size]`: delivers any part of what is queued, or reports the end, or fails. */
    method RecvCall(buffer: array<u8>, at: nat, size: nat) returns (res: int, ghost a: Answer)
      requires Valid() && size > 0 && at + size <= buffer.Length
      modifies this, buffer
      ensures Valid() && sent == old(sent) && answered == old(answered) + [a]
      ensures a.Moved? ==> res == a.n <= size && received == old(received) + buffer[at..at + a.n]
      ensures a.Moved? ==> interrupts == old(interrupts)
      ensures a.Failed? ==> res == -1 && errno == a.errno && received == old(received)
      ensures a.Failed? && a.errno == EINTR ==> interrupts < old(interrupts)
      ensures var n := if a.Moved? then a.n else 0;
              buffer[..at] == old(buffer[..at]) && buffer[at + n..] == old(buffer[at + n..])
    {
      if * {
        var n: nat :| n <= size && n <= |queue|;
        forall i | 0 <= i < n {
          buffer[at + i] := queue[i];
        }
        assert buffer[at..at + n] == queue[..n];
        received, queue, answered := received + queue[..n], queue[n..], answered + [Moved(n)];
        return n, Moved(n);
      }
      errno := *;
      if errno == EINTR {
        if interrupts == 0 {
          errno := EINTR + 1;
        } else {
          interrupts := interrupts - 1;
        }
      }
      answered := answered + [Failed(errno)];
      return -1, Failed(errno);
    }
  }

  /** `TcpStream::send`. */
  method Send(pipe: Pipe, data: seq<u8>) returns (r: Result<nat, Error>, ghost a: Answer)
    requires pipe.Valid() && data != []
    modifies pipe
    ensures pipe.Valid() && r == Report(a) && pipe.received == old(pipe.received)
    ensures pipe.answered == old(pipe.answered) + [a]
    ensures a.Moved? ==> a.n <= |data| && pipe.sent == old(pipe.sent) + data[..a.n] && pipe.interrupts == old(pipe.interrupts)
    ensures a.Failed? ==> pipe.sent == old(pipe.sent)
    ensures a == Failed(EINTR) ==> pipe.interrupts < old(pipe.interrupts)
  {
    var res;
    res, a := pipe.SendCall(data);
    if res < 0 {
      return Err(LastOsError(pipe.errno)), a;
    } else if res == 0 {
      return Err(Coded(ConnectionClosed)), a;
    }
    return Ok(res), a;
  }

  lemma NextSlice(data: seq<u8>, at: nat, count: nat)
    requires at + count <= |data|
    ensures data[..at + count] == data[..at] + data[at..][..count]
  {}

  /**
   The bytes the kernel took are a prefix of the data, all of it on success; the loop went through exactly what the
   kernel answered, and it terminates because every retry uses up an interrupt or moves bytes.
   */
  method SendAll(pipe: Pipe, data: seq<u8>) returns (r: Result<(), Error>, ghost answers: seq<Answer>)
    requires pipe.Valid()
    modifies pipe
    ensures pipe.Valid() && old(pipe.received) <= pipe.received
    ensures pipe.answered == old(pipe.answered) + answers
    ensures IterateAll(Start(|data|), answers).Some?
    ensures var f := IterateAll(Start(|data|), answers).value;
            && f.moved <= |data| && pipe.sent == old(pipe.sent) + data[..f.moved]
            && f.status == match r { case Ok(_) => Done case Err(e) => Stopped(e) }
    ensures r.Ok? ==> pipe.sent == old(pipe.sent) + data
  {
    answers := [];
    var ptr, remaining := 0, |data|;
    while remaining > 0
      invariant 0 <= ptr && 0 <= remaining && ptr + remaining == |data|
      invariant pipe.Valid() && old(pipe.received) <= pipe.received
      invariant pipe.answered == old(pipe.answered) + answers
      invariant IterateAll(Start(|data|), answers) == Some(Loop(|data|, ptr, if remaining == 0 then Done else Running))
      invariant pipe.sent == old(pipe.sent) + data[..ptr]
      decreases remaining, pipe.interrupts
    {
      pipe.OtherEndReads();
      var result;
      ghost var a;
      result, a := Send(pipe, data[ptr..]);
      IterateAllAppend(Start(|data|), answers, a);
      answers := answers + [a];
      if result.Err? {
        if !IsInterrupt(result.error) {
          return Err(result.error), answers;
        }
        continue;
      }
      var count := result.value;
      if count == 0 {
        return Err(Coded(ConnectionClosed)), answers;
      }
      NextSlice(data, ptr, count);
      ptr := ptr + count;
      remaining := remaining - count;
    }
    assert data[..ptr] == data;
    return Ok(()), answers;
  }

  /** `TcpStream::receive` at an offset of the caller's buffer. */
  method Receive(pipe: Pipe, buffer: array<u8>, at: nat, size: nat) returns (r: Result<nat, Error>, ghost a: Answer)
    requires pipe.Valid() && size > 0 && at + size <= buffer.Length
    modifies pipe, buffer
    ensures pipe.Valid() && r == Report(a) && pipe.sent == old(pipe.sent)
    ensures pipe.answered == old(pipe.answered) + [a]
    ensures a.Moved? ==> a.n <= size && pipe.received == old(pipe.received) + buffer[at..at + a.n]
    ensures a.Moved? ==> pipe.interrupts == old(pipe.interrupts)
    ensures a.Failed? ==> pipe.received == old(pipe.received)
    ensures a == Failed(EINTR) ==> pipe.interrupts < old(pipe.interrupts)
    ensures var n := if a.Moved? then a.n else 0;
            buffer[..at] == old(buffer[..at]) && buffer[at + n..] == old(buffer[at + n..])
  {
    var res;
    res, a := pipe.RecvCall(buffer, at, size);
    if res < 0 {
      return Err(LastOsError(pipe.errno)), a;
    } else if res == 0 {
      return Err(Coded(ConnectionClosed)), a;
    }
    return Ok(res), a;
  }

  /** What a call that wrote only `count` bytes at `at` has made of a buffer. */
  lemma BufferAfter(before: seq<u8>, after: seq<u8>, at: nat, count: nat)
    requires |before| == |after| && at + count <= |after|
    requires after[..at] == before[..at] && after[at + count..] == before[at + count..]
    ensures after[..at + count] == before[..at] + after[at..at + count]
    ensures after[at + count..] == before[at..][count..]
    ensures count == 0 ==> after == before
  {
    assert after == after[..at] + after[at..] && before == before[..at] + before[at..];
  }

  /** The same for what was received: `got` at first, `got0` before the call and `got1` after it. */
  lemma ReceivedAfter(before: seq<u8>, after: seq<u8>, at: nat, count: nat, got: seq<u8>, got0: seq<u8>, got1: seq<u8>)
    requires |before| == |after| && at + count <= |after|
    requires after[..at] == before[..at] && after[at + count..] == before[at + count..]
    requires got0 == got + before[..at] && got1 == if count == 0 then got0 else got0 + after[at..at + count]
    ensures got1 == got + after[..at + count]
    ensures after[at + count..] == before[at..][count..]
    ensures count == 0 ==> after == before
  {
    BufferAfter(before, after, at, count);
    Associative(got, before[..at], after[at..at + count]);
  }

  lemma Associative(x: seq<u8>, y: seq<u8>, z: seq<u8>)
    ensures (x + y) + z == x + (y + z)
  {}

  /**
   On success the buffer is exactly the next bytes of the stream; on failure a prefix of it holds what was consumed,
   in order, and the rest is as it was.
   */
  method ReceiveExact(pipe: Pipe, buffer: array<u8>) returns (r: Result<(), Error>, ghost answers: seq<Answer>)
    requires pipe.Valid()
    modifies pipe, buffer
    ensures pipe.Valid() && old(pipe.sent) <= pipe.sent
    ensures pipe.answered == old(pipe.answered) + answers
    ensures IterateAll(Start(buffer.Length), answers).Some?
    ensures var f := IterateAll(Start(buffer.Length), answers).value;
            && f.moved <= buffer.Length && pipe.received == old(pipe.received) + buffer[..f.moved]
            && buffer[f.moved..] == old(buffer[f.moved..])
            && f.status == match r { case Ok(_) => Done case Err(e) => Stopped(e) }
    ensures r.Ok? ==> pipe.received == old(pipe.received) + buffer[..]
  {
    answers := [];
    ghost var got := pipe.received;
    var ptr, remaining := 0, buffer.Length;
    while remaining > 0
      invariant 0 <= ptr && 0 <= remaining && ptr + remaining == buffer.Length
      invariant pipe.Valid() && old(pipe.sent) <= pipe.sent
      invariant pipe.answered == old(pipe.answered) + answers
      invariant IterateAll(Start(buffer.Length), answers) ==
                Some(Loop(buffer.Length, ptr, if remaining == 0 then Done else Running))
      invariant pipe.received == got + buffer[..ptr]
      invariant buffer[ptr..] == old(buffer[ptr..])
      decreases remaining, pipe.interrupts
    {
      pipe.OtherEndWrites();
      var result;
      ghost var a, before, got0 := Moved(0), buffer[..], pipe.received;
      result, a := Receive(pipe, buffer, ptr, remaining);
      IterateAllAppend(Start(buffer.Length), answers, a);
      ReceivedAfter(before, buffer[..], ptr, if a.Moved? then a.n else 0, got, got0, pipe.received);
      answers := answers + [a];
      if result.Err? {
        if !IsInterrupt(result.error) {
          return Err(result.error), answers;
        }
        continue;
      }
      var count := result.value;
      if count == 0 {
        return Err(Coded(ConnectionClosed)), answers;
      }
      ptr := ptr + count;
      remaining := remaining - count;
    }
    assert buffer[..ptr] == buffer[..];
    return Ok(()), answers;
  }
}
