/**
 Both ends of one connection at once: any sequence of `sendAll` calls on one end and of `receiveExact` calls on the
 other, with their loop iterations interleaved in any order and every kernel answer the two loops allow for.
 */
module Transfer {
  import opened Wrappers
  import opened ByteOrder
  import opened TcpStream

  datatype Sending = Sending(data: seq<u8>, loop: Loop)
  datatype RecvCall = RecvCall(got: seq<u8>, loop: Loop)

  /** The loop runs over the whole data. */
  type SendCall = c: Sending | c.loop.moved <= c.loop.size == |c.data| witness Sending([], Start(0))

  /** Calls begun so far on each end, the last perhaps unfinished, and the bytes under way. */
  datatype System = System(sends: seq<SendCall>, recvs: seq<RecvCall>, queue: seq<u8>)

  const Init := System([], [], [])

  datatype Event =
    | BeginSend(data: seq<u8>)
    | BeginRecv(size: nat)
    | SendAnswer(a: Answer)
    | RecvAnswer(a: Answer)

  predicate SendIdle(s: System) {
    s.sends == [] || s.sends[|s.sends| - 1].loop.status != Running
  }

  predicate RecvIdle(s: System) {
    s.recvs == [] || s.recvs[|s.recvs| - 1].loop.status != Running
  }

  predicate Enabled(s: System, e: Event) {
    match e
    case BeginSend(_) => SendIdle(s)
    case BeginRecv(_) => RecvIdle(s)
    case SendAnswer(a) => !SendIdle(s) && Possible(s.sends[|s.sends| - 1].loop, a)
    case RecvAnswer(a) => !RecvIdle(s) && Possible(s.recvs[|s.recvs| - 1].loop, a) && (a.Moved? ==> a.n <= |s.queue|)
  }

  function MovedBy(a: Answer): nat {
    if a.Moved? then a.n else 0
  }

  /** A send answer puts the next bytes of the data on the queue; a receive answer takes the first bytes off it. */
  function Step(s: System, e: Event): System
    requires Enabled(s, e)
  {
    match e
    case BeginSend(data) => s.(sends := s.sends + [Sending(data, Start(|data|))])
    case BeginRecv(size) => s.(recvs := s.recvs + [RecvCall([], Start(size))])
    case SendAnswer(a) =>
      var i := |s.sends| - 1;
      var c := s.sends[i];
      var at := c.loop.moved;
      s.(sends := s.sends[i := c.(loop := Iterate(c.loop, a))], queue := s.queue + c.data[at..at + MovedBy(a)])
    case RecvAnswer(a) =>
      var i := |s.recvs| - 1;
      var c := s.recvs[i];
      var n := MovedBy(a);
      s.(recvs := s.recvs[i := RecvCall(c.got + s.queue[..n], Iterate(c.loop, a))], queue := s.queue[n..])
  }

  function Run(s: System, es: seq<Event>): Option<System>
    decreases |es|
  {
    if es == [] then Some(s)
    else if !Enabled(s, es[0]) then None
    else Run(Step(s, es[0]), es[1..])
  }

  // ---- The streams ----

  /** What the kernel has accepted from one call. */
  function Accepted(c: SendCall): seq<u8> {
    c.data[..c.loop.moved]
  }

  /** Everything accepted, in call order. */
  function Sent(calls: seq<SendCall>): seq<u8> {
    if calls == [] then [] else Sent(calls[..|calls| - 1]) + Accepted(calls[|calls| - 1])
  }

  /** Everything delivered, in call order. */
  function Received(calls: seq<RecvCall>): seq<u8> {
    if calls == [] then [] else Received(calls[..|calls| - 1]) + calls[|calls| - 1].got
  }

  predicate LoopOk(l: Loop) {
    l.moved <= l.size && (l.status == Running ==> l.moved < l.size) && (l.status == Done ==> l.moved == l.size)
  }

  ghost predicate Inv(s: System) {
    && (forall i :: 0 <= i < |s.sends| ==> LoopOk(s.sends[i].loop))
    && (forall i :: 0 <= i < |s.recvs| ==> LoopOk(s.recvs[i].loop) && s.recvs[i].loop.moved == |s.recvs[i].got|)
    && Sent(s.sends) == Received(s.recvs) + s.queue
  }

  lemma SentStep(calls: seq<SendCall>, c: SendCall)
    requires calls != []
    requires var last := calls[|calls| - 1]; c.data == last.data && last.loop.moved <= c.loop.moved
    ensures var i := |calls| - 1;
            Sent(calls[i := c]) == Sent(calls) + c.data[calls[i].loop.moved..c.loop.moved]
  {
    var i := |calls| - 1;
    assert calls[i := c][..i] == calls[..i];
    assert c.data[..c.loop.moved] == Accepted(calls[i]) + c.data[calls[i].loop.moved..c.loop.moved];
  }

  lemma ReceivedStep(calls: seq<RecvCall>, more: seq<u8>, l: Loop)
    requires calls != []
    ensures var i := |calls| - 1;
            Received(calls[i := RecvCall(calls[i].got + more, l)]) == Received(calls) + more
  {
    var i := |calls| - 1;
    assert calls[i := RecvCall(calls[i].got + more, l)][..i] == calls[..i];
  }

  lemma AnswerKeepsLoopOk(l: Loop, a: Answer)
    requires LoopOk(l) && Possible(l, a)
    ensures LoopOk(Iterate(l, a)) && Iterate(l, a).moved == l.moved + MovedBy(a)
  {}

  lemma SendAnswerKeepsInv(s: System, a: Answer)
    requires Inv(s) && Enabled(s, SendAnswer(a))
    ensures Inv(Step(s, SendAnswer(a)))
  {
    var s', i := Step(s, SendAnswer(a)), |s.sends| - 1;
    var c := s.sends[i];
    var more := c.data[c.loop.moved..c.loop.moved + MovedBy(a)];
    AnswerKeepsLoopOk(c.loop, a);
    SentStep(s.sends, c.(loop := Iterate(c.loop, a)));
    Balance(Received(s.recvs), s.queue, more, Sent(s.sends));
  }

  lemma RecvAnswerKeepsInv(s: System, a: Answer)
    requires Inv(s) && Enabled(s, RecvAnswer(a))
    ensures Inv(Step(s, RecvAnswer(a)))
  {
    var s' := Step(s, RecvAnswer(a));
    var c, n := s.recvs[|s.recvs| - 1], MovedBy(a);
    AnswerKeepsLoopOk(c.loop, a);
    ReceivedStep(s.recvs, s.queue[..n], Iterate(c.loop, a));
    Handover(Received(s.recvs), s.queue, n);
  }

  /** Bytes added at the far end of the queue. */
  lemma Balance(r: seq<u8>, queue: seq<u8>, more: seq<u8>, sent: seq<u8>)
    requires sent == r + queue
    ensures sent + more == r + (queue + more)
  {}

  /** Bytes handed from the front of the queue to the receiver. */
  lemma Handover(r: seq<u8>, queue: seq<u8>, n: nat)
    requires n <= |queue|
    ensures r + queue[..n] + queue[n..] == r + queue
  {}

  lemma BeginAddsNothing(sends: seq<SendCall>, c: SendCall, recvs: seq<RecvCall>, d: RecvCall)
    requires c.loop.moved == 0 && d.got == []
    ensures Sent(sends + [c]) == Sent(sends) && Received(recvs + [d]) == Received(recvs)
  {
    assert (sends + [c])[..|sends|] == sends;
    assert (recvs + [d])[..|recvs|] == recvs;
  }

  lemma BeginKeepsInv(s: System, data: seq<u8>, size: nat)
    requires Inv(s)
    ensures SendIdle(s) ==> Inv(Step(s, BeginSend(data)))
    ensures RecvIdle(s) ==> Inv(Step(s, BeginRecv(size)))
  {
    BeginAddsNothing(s.sends, Sending(data, Start(|data|)), s.recvs, RecvCall([], Start(size)));
  }

  lemma StepKeepsInv(s: System, e: Event)
    requires Inv(s) && Enabled(s, e)
    ensures Inv(Step(s, e))
  {
    match e
    case BeginSend(data) => BeginKeepsInv(s, data, 0);
    case BeginRecv(size) => BeginKeepsInv(s, [], size);
    case SendAnswer(a) => SendAnswerKeepsInv(s, a);
    case RecvAnswer(a) => RecvAnswerKeepsInv(s, a);
  }

  lemma {:induction false} RunKeepsInv(s: System, es: seq<Event>)
    requires Inv(s) && Run(s, es).Some?
    ensures Inv(Run(s, es).value)
    decreases |es|
  {
    if es != [] {
      StepKeepsInv(s, es[0]);
      RunKeepsInv(Step(s, es[0]), es[1..]);
    }
  }

  // ---- Main results ----

  lemma EmptyInv()
    ensures Inv(Init)
  {}

  lemma PrefixTransitive(x: seq<u8>, y: seq<u8>, z: seq<u8>)
    requires x <= y
    ensures x <= y + z
  {}

  lemma PrefixChain(x: seq<u8>, y: seq<u8>, z: seq<u8>)
    requires x <= y && y <= z
    ensures x <= z
  {}

  lemma SliceOfBoth(x: seq<u8>, y: seq<u8>, z: seq<u8>, at: nat, n: nat)
    requires x <= y && x <= z && at + n <= |x|
    ensures y[at..at + n] == z[at..at + n]
  {}

  // ---- What was asked and answered, from the events alone ----

  /** One call as the program and the kernel see it: what it was called with, and the answers it was given. */
  datatype SendTrace = SendTrace(data: seq<u8>, answers: seq<Answer>)
  datatype RecvTrace = RecvTrace(size: nat, answers: seq<Answer>)

  /** A beginning opens a new trace; an answer belongs to the last one. */
  function AddSend(ts: seq<SendTrace>, e: Event): seq<SendTrace> {
    match e
    case BeginSend(data) => ts + [SendTrace(data, [])]
    case SendAnswer(a) =>
      if ts == [] then [] else ts[|ts| - 1 := ts[|ts| - 1].(answers := ts[|ts| - 1].answers + [a])]
    case _ => ts
  }

  function AddRecv(ts: seq<RecvTrace>, e: Event): seq<RecvTrace> {
    match e
    case BeginRecv(size) => ts + [RecvTrace(size, [])]
    case RecvAnswer(a) =>
      if ts == [] then [] else ts[|ts| - 1 := ts[|ts| - 1].(answers := ts[|ts| - 1].answers + [a])]
    case _ => ts
  }

  function SendTraces(es: seq<Event>): seq<SendTrace> {
    if es == [] then [] else AddSend(SendTraces(es[..|es| - 1]), es[|es| - 1])
  }

  function RecvTraces(es: seq<Event>): seq<RecvTrace> {
    if es == [] then [] else AddRecv(RecvTraces(es[..|es| - 1]), es[|es| - 1])
  }

  /** The data the first `n` sends were called with. */
  function DataOf(ts: seq<SendTrace>, n: nat): seq<u8>
    requires n <= |ts|
  {
    if n == 0 then [] else DataOf(ts, n - 1) + ts[n - 1].data
  }

  predicate SentWhole(t: SendTrace) {
    Total(t.answers) == |t.data|
  }

  predicate Filled(t: RecvTrace) {
    Total(t.answers) == t.size
  }

  /** Of one call's data as many bytes as the kernel counted. */
  function Counted(t: SendTrace): seq<u8> {
    if Total(t.answers) <= |t.data| then t.data[..Total(t.answers)] else t.data
  }

  /** What the kernel accepted from the first `n` sends. */
  function Stream(ts: seq<SendTrace>, n: nat): seq<u8>
    requires n <= |ts|
  {
    if n == 0 then [] else Stream(ts, n - 1) + Counted(ts[n - 1])
  }

  /** How many bytes the first `n` receives were given, and how many they asked for. */
  function CountOf(ts: seq<RecvTrace>, n: nat): nat
    requires n <= |ts|
  {
    if n == 0 then 0 else CountOf(ts, n - 1) + Total(ts[n - 1].answers)
  }

  function SizesOf(ts: seq<RecvTrace>, n: nat): nat
    requires n <= |ts|
  {
    if n == 0 then 0 else SizesOf(ts, n - 1) + ts[n - 1].size
  }

  predicate SendMatches(c: SendCall, t: SendTrace) {
    c.data == t.data && IterateAll(Start(|t.data|), t.answers) == Some(c.loop)
  }

  predicate RecvMatches(c: RecvCall, t: RecvTrace) {
    IterateAll(Start(t.size), t.answers) == Some(c.loop)
  }

  ghost predicate Follows(s: System, sends: seq<SendTrace>, recvs: seq<RecvTrace>) {
    && |s.sends| == |sends| && (forall i :: 0 <= i < |sends| ==> SendMatches(s.sends[i], sends[i]))
    && |s.recvs| == |recvs| && (forall i :: 0 <= i < |recvs| ==> RecvMatches(s.recvs[i], recvs[i]))
  }

  lemma SendFollows(c: SendCall, t: SendTrace, a: Answer)
    requires SendMatches(c, t) && Possible(c.loop, a)
    ensures SendMatches(c.(loop := Iterate(c.loop, a)), t.(answers := t.answers + [a]))
  {
    IterateAllAppend(Start(|t.data|), t.answers, a);
  }

  lemma RecvFollows(c: RecvCall, t: RecvTrace, a: Answer, got: seq<u8>)
    requires RecvMatches(c, t) && Possible(c.loop, a)
    ensures RecvMatches(RecvCall(got, Iterate(c.loop, a)), t.(answers := t.answers + [a]))
  {
    IterateAllAppend(Start(t.size), t.answers, a);
  }

  lemma SendAnswerFollows(s: System, a: Answer, sends: seq<SendTrace>, recvs: seq<RecvTrace>)
    requires Follows(s, sends, recvs) && Enabled(s, SendAnswer(a))
    ensures Follows(Step(s, SendAnswer(a)), AddSend(sends, SendAnswer(a)), recvs)
  {
    var i := |sends| - 1;
    SendFollows(s.sends[i], sends[i], a);
  }

  lemma RecvAnswerFollows(s: System, a: Answer, sends: seq<SendTrace>, recvs: seq<RecvTrace>)
    requires Follows(s, sends, recvs) && Enabled(s, RecvAnswer(a))
    ensures Follows(Step(s, RecvAnswer(a)), sends, AddRecv(recvs, RecvAnswer(a)))
  {
    var i := |recvs| - 1;
    RecvFollows(s.recvs[i], recvs[i], a, s.recvs[i].got + s.queue[..MovedBy(a)]);
  }

  lemma StepFollows(s: System, e: Event, sends: seq<SendTrace>, recvs: seq<RecvTrace>)
    requires Follows(s, sends, recvs) && Enabled(s, e)
    ensures Follows(Step(s, e), AddSend(sends, e), AddRecv(recvs, e))
  {
    match e
    case BeginSend(_) =>
    case BeginRecv(_) =>
    case SendAnswer(a) => SendAnswerFollows(s, a, sends, recvs);
    case RecvAnswer(a) => RecvAnswerFollows(s, a, sends, recvs);
  }

  lemma {:induction false} RunLast(s: System, es: seq<Event>, e: Event)
    ensures Run(s, es + [e]).Some? <==> Run(s, es).Some? && Enabled(Run(s, es).value, e)
    ensures Run(s, es + [e]).Some? ==> Run(s, es + [e]) == Some(Step(Run(s, es).value, e))
    decreases |es|
  {
    if es == [] {
      assert [e][1..] == [];
    } else if Enabled(s, es[0]) {
      RunLast(Step(s, es[0]), es[1..], e);
      assert (es + [e])[1..] == es[1..] + [e];
    }
  }

  /**
   In every run each call is, on its own end, exactly the loop of `sendAll` or `receiveExact`: begun with the caller's
   data or size and taken through the answers given to it, whatever the other end does in between.
   */
  lemma {:induction false} RunFollows(es: seq<Event>)
    requires Run(Init, es).Some?
    ensures Follows(Run(Init, es).value, SendTraces(es), RecvTraces(es))
    decreases |es|
  {
    if es != [] {
      var before, e := es[..|es| - 1], es[|es| - 1];
      assert es == before + [e];
      RunLast(Init, before, e);
      RunFollows(before);
      StepFollows(Run(Init, before).value, e, SendTraces(before), RecvTraces(before));
    }
  }

  lemma SendMeaning(c: SendCall, t: SendTrace)
    requires SendMatches(c, t)
    ensures c.loop.size == |t.data| && c.loop.moved == Total(t.answers) <= |t.data|
    ensures c.loop.status == Done <==> SentWhole(t)
  {
    LoopMeaning(Start(|t.data|), t.answers);
  }

  lemma RecvMeaning(c: RecvCall, t: RecvTrace)
    requires RecvMatches(c, t)
    ensures c.loop.size == t.size && c.loop.moved == Total(t.answers) <= t.size
    ensures c.loop.status == Done <==> Filled(t)
  {
    LoopMeaning(Start(t.size), t.answers);
  }

  lemma SentTo(calls: seq<SendCall>, n: nat)
    requires 0 < n <= |calls|
    ensures Sent(calls[..n]) == Sent(calls[..n - 1]) + Accepted(calls[n - 1])
  {
    assert calls[..n][..n - 1] == calls[..n - 1];
  }

  lemma ReceivedTo(calls: seq<RecvCall>, n: nat)
    requires 0 < n <= |calls|
    ensures Received(calls[..n]) == Received(calls[..n - 1]) + calls[n - 1].got
  {
    assert calls[..n][..n - 1] == calls[..n - 1];
  }

  lemma AcceptedIsCounted(c: SendCall, t: SendTrace)
    requires SendMatches(c, t)
    ensures Accepted(c) == Counted(t)
  {
    SendMeaning(c, t);
  }

  lemma {:induction false} SentIsStream(calls: seq<SendCall>, ts: seq<SendTrace>, n: nat)
    requires n <= |calls| == |ts| && forall i :: 0 <= i < |ts| ==> SendMatches(calls[i], ts[i])
    ensures Sent(calls[..n]) == Stream(ts, n)
  {
    if n > 0 {
      SentIsStream(calls, ts, n - 1);
      SentTo(calls, n);
      AcceptedIsCounted(calls[n - 1], ts[n - 1]);
    }
  }

  lemma {:induction false} ReceivedIsCount(calls: seq<RecvCall>, ts: seq<RecvTrace>, n: nat)
    requires n <= |calls| == |ts| && forall i :: 0 <= i < |ts| ==> RecvMatches(calls[i], ts[i])
    requires forall i :: 0 <= i < |calls| ==> calls[i].loop.moved == |calls[i].got|
    ensures |Received(calls[..n])| == CountOf(ts, n)
  {
    if n > 0 {
      ReceivedIsCount(calls, ts, n - 1);
      ReceivedTo(calls, n);
      RecvMeaning(calls[n - 1], ts[n - 1]);
    }
  }

  lemma {:induction false} FilledSizes(ts: seq<RecvTrace>, n: nat)
    requires n <= |ts| && forall k :: 0 <= k < n ==> Filled(ts[k])
    ensures CountOf(ts, n) == SizesOf(ts, n)
  {
    if n > 0 {
      FilledSizes(ts, n - 1);
    }
  }

  lemma {:induction false} WholeStream(ts: seq<SendTrace>, n: nat)
    requires n <= |ts| && forall k :: 0 <= k < n ==> SentWhole(ts[k])
    ensures Stream(ts, n) == DataOf(ts, n)
  {
    if n > 0 {
      WholeStream(ts, n - 1);
      assert SentWhole(ts[n - 1]);
    }
  }

  /** The streams of a state are those of its traces. */
  lemma StreamsOfTraces(s: System, ts: seq<SendTrace>, us: seq<RecvTrace>)
    requires Follows(s, ts, us) && Inv(s)
    ensures Received(s.recvs) + s.queue == Stream(ts, |ts|) && |Received(s.recvs)| == CountOf(us, |us|)
  {
    SentIsStream(s.sends, ts, |ts|);
    ReceivedIsCount(s.recvs, us, |us|);
    assert s.sends[..|ts|] == s.sends && s.recvs[..|us|] == s.recvs;
  }

  lemma UnderWay(s: System, ts: seq<SendTrace>, us: seq<RecvTrace>)
    requires Follows(s, ts, us) && Inv(s)
    ensures var sent, n := Stream(ts, |ts|), CountOf(us, |us|);
            n <= |sent| && s.queue == sent[n..]
  {
    StreamsOfTraces(s, ts, us);
    RestOfStream(Stream(ts, |ts|), Received(s.recvs), s.queue);
  }

  lemma RestOfStream(sent: seq<u8>, received: seq<u8>, queue: seq<u8>)
    requires sent == received + queue
    ensures |received| <= |sent| && queue == sent[|received|..]
  {}

  lemma OneReceive(s: System, ts: seq<SendTrace>, us: seq<RecvTrace>, i: nat)
    requires Follows(s, ts, us) && Inv(s) && i < |us|
    ensures |s.recvs[i].got| == Total(us[i].answers) <= us[i].size
    ensures s.recvs[i].loop.status == Done <==> Filled(us[i])
  {
    RecvMeaning(s.recvs[i], us[i]);
  }

  /** Where the buffer of a receive is in the stream. */
  ghost predicate BufferAt(got: seq<u8>, sent: seq<u8>, at: nat) {
    at + |got| <= |sent| && got == sent[at..at + |got|]
  }

  lemma BufferExtends(got: seq<u8>, sent: seq<u8>, more: seq<u8>, at: nat)
    requires BufferAt(got, sent, at)
    ensures BufferAt(got, sent + more, at)
  {}

  lemma BufferAtEnd(sent: seq<u8>, got: seq<u8>)
    ensures BufferAt(got, sent + got, |sent|)
  {}

  lemma {:induction false} BufferInReceived(calls: seq<RecvCall>, ts: seq<RecvTrace>, i: nat, n: nat)
    requires i < n <= |calls| == |ts| && forall k :: 0 <= k < |ts| ==> RecvMatches(calls[k], ts[k])
    requires forall k :: 0 <= k < |calls| ==> calls[k].loop.moved == |calls[k].got|
    ensures BufferAt(calls[i].got, Received(calls[..n]), CountOf(ts, i))
  {
    ReceivedTo(calls, n);
    if n == i + 1 {
      ReceivedIsCount(calls, ts, i);
      BufferAtEnd(Received(calls[..i]), calls[i].got);
    } else {
      BufferInReceived(calls, ts, i, n - 1);
      BufferExtends(calls[i].got, Received(calls[..n - 1]), calls[n - 1].got, CountOf(ts, i));
    }
  }

  lemma Delivered(s: System, ts: seq<SendTrace>, us: seq<RecvTrace>, i: nat)
    requires Follows(s, ts, us) && Inv(s) && i < |us|
    ensures BufferAt(s.recvs[i].got, Stream(ts, |ts|), CountOf(us, i))
  {
    StreamsOfTraces(s, ts, us);
    BufferInReceived(s.recvs, us, i, |us|);
    assert s.recvs[..|us|] == s.recvs;
    BufferExtends(s.recvs[i].got, Received(s.recvs), s.queue, CountOf(us, i));
  }

  lemma RunIsSound(es: seq<Event>)
    requires Run(Init, es).Some?
    ensures Follows(Run(Init, es).value, SendTraces(es), RecvTraces(es)) && Inv(Run(Init, es).value)
  {
    RunFollows(es);
    EmptyInv();
    RunKeepsInv(Init, es);
  }

  /**
   The buffer of receive `i` is the next slice of the accepted stream, behind the bytes of the receives before it, and
   as long as counted; it is done exactly when that is the size asked for; what is under way is the rest of the stream;
   and when every send was counted whole, the stream is the callers' data.
   */
  ghost predicate Sliced(s: System, sends: seq<SendTrace>, recvs: seq<RecvTrace>, i: nat)
    requires i < |recvs|
  {
    var sent, n := Stream(sends, |sends|), Total(recvs[i].answers);
    && |s.recvs| == |recvs| && |s.recvs[i].got| == n <= recvs[i].size
    && BufferAt(s.recvs[i].got, sent, CountOf(recvs, i))
    && (s.recvs[i].loop.status == Done <==> Filled(recvs[i]))
    && CountOf(recvs, |recvs|) <= |sent| && s.queue == sent[CountOf(recvs, |recvs|)..]
    && ((forall k :: 0 <= k < |sends| ==> SentWhole(sends[k])) ==> sent == DataOf(sends, |sends|))
  }

  /**
   Over every run, in terms of what the calls were given and the kernel counted: nothing is lost, duplicated or
   reordered, and each completed `receiveExact` holds the bytes it asked for, the next ones of the stream.
   */
  lemma EndToEnd(es: seq<Event>, i: nat)
    requires Run(Init, es).Some? && i < |RecvTraces(es)|
    ensures Sliced(Run(Init, es).value, SendTraces(es), RecvTraces(es), i)
  {
    var s, sends, recvs := Run(Init, es).value, SendTraces(es), RecvTraces(es);
    RunIsSound(es);
    StateEndToEnd(s, sends, recvs, i);
  }

  lemma StateEndToEnd(s: System, sends: seq<SendTrace>, recvs: seq<RecvTrace>, i: nat)
    requires Follows(s, sends, recvs) && Inv(s) && i < |recvs|
    ensures Sliced(s, sends, recvs, i)
  {
    OneReceive(s, sends, recvs, i);
    Delivered(s, sends, recvs, i);
    UnderWay(s, sends, recvs);
    if forall k :: 0 <= k < |sends| ==> SentWhole(sends[k]) {
      WholeStream(sends, |sends|);
    }
  }

  lemma {:induction false} StreamOfFirst(ts: seq<SendTrace>, n: nat, m: nat)
    requires n <= m <= |ts|
    ensures Stream(ts, n) <= Stream(ts, m) && DataOf(ts, n) <= DataOf(ts, m)
  {
    if n < m {
      StreamOfFirst(ts, n, m - 1);
      PrefixTransitive(Stream(ts, n), Stream(ts, m - 1), Counted(ts[m - 1]));
      PrefixTransitive(DataOf(ts, n), DataOf(ts, m - 1), ts[m - 1].data);
    }
  }

  lemma SamePrefixes(x: seq<u8>, part: seq<u8>, whole: seq<u8>)
    requires part <= whole
    ensures x + part <= x + whole
  {}

  /** Up to and into the first send not counted whole, the accepted stream is the callers' data. */
  lemma StreamIsData(ts: seq<SendTrace>, n: nat)
    requires n < |ts| && forall k :: 0 <= k < n ==> SentWhole(ts[k])
    ensures Stream(ts, n + 1) <= Stream(ts, |ts|) && Stream(ts, n + 1) <= DataOf(ts, |ts|)
  {
    WholeStream(ts, n);
    SamePrefixes(Stream(ts, n), Counted(ts[n]), ts[n].data);
    StreamOfFirst(ts, n + 1, |ts|);
    PrefixChain(Stream(ts, n + 1), DataOf(ts, n + 1), DataOf(ts, |ts|));
  }

  /**
   In every run, with calls in progress or failed: let the first `n` sends have been counted whole. Then each buffer
   filled from what they and the next one sent is a slice of the callers' data, and if the receives before it were
   filled, the slice begins where the sizes they asked for end. With no send failed but the last, that is every buffer.
   */
  lemma FramedTransfer(es: seq<Event>, i: nat, n: nat)
    requires Run(Init, es).Some? && i < |RecvTraces(es)| && n < |SendTraces(es)|
    requires forall k :: 0 <= k < n ==> SentWhole(SendTraces(es)[k])
    ensures var s, sends, recvs := Run(Init, es).value, SendTraces(es), RecvTraces(es);
            && |s.recvs| == |recvs|
            && (Filled(recvs[i]) ==> |s.recvs[i].got| == recvs[i].size)
            && ((forall k :: 0 <= k < i ==> Filled(recvs[k])) ==> CountOf(recvs, i) == SizesOf(recvs, i))
            && BufferAt(s.recvs[i].got, Stream(sends, |sends|), CountOf(recvs, i))
            && Framed(s.recvs[i].got, Stream(sends, n + 1), DataOf(sends, |sends|), CountOf(recvs, i))
  {
    var s, sends, recvs := Run(Init, es).value, SendTraces(es), RecvTraces(es);
    RunIsSound(es);
    OneReceive(s, sends, recvs, i);
    Delivered(s, sends, recvs, i);
    StreamIsData(sends, n);
    BufferIsFramed(s.recvs[i].got, Stream(sends, n + 1), Stream(sends, |sends|), DataOf(sends, |sends|), CountOf(recvs, i));
    if forall k :: 0 <= k < i ==> Filled(recvs[k]) {
      FilledSizes(recvs, i);
    }
  }

  /** A buffer that ends within the first part of the stream is a slice of the data. */
  ghost predicate Framed(got: seq<u8>, first: seq<u8>, data: seq<u8>, at: nat) {
    at + |got| <= |first| ==> BufferAt(got, data, at)
  }

  lemma BufferIsFramed(got: seq<u8>, first: seq<u8>, sent: seq<u8>, data: seq<u8>, at: nat)
    requires first <= sent && first <= data && BufferAt(got, sent, at)
    ensures Framed(got, first, data, at)
  {
    if at + |got| <= |first| {
      SliceOfBoth(first, sent, data, at, |got|);
    }
  }

  /** A call that takes no more answers: all bytes moved, or the last answer fatal. */
  predicate Finished(size: nat, answers: seq<Answer>) {
    Total(answers) == size || (answers != [] && Fatal(answers[|answers| - 1]))
  }

  lemma StillRunning(size: nat, answers: seq<Answer>)
    requires IterateAll(Start(size), answers).Some?
    ensures IterateAll(Start(size), answers).value.status == Running <==> !Finished(size, answers)
  {
    LoopMeaning(Start(size), answers);
  }

  /**
   Which runs there are: after any run a call may begin on an end whose last call is finished, and an unfinished call
   may be given any failure, and any count up to what it lacks and, when receiving, up to what is under way.
   */
  lemma RunGoesOn(es: seq<Event>, e: Event)
    requires Run(Init, es).Some?
    ensures Run(Init, es + [e]).Some? <==> MayFollow(SendTraces(es), RecvTraces(es), e)
  {
    RunLast(Init, es, e);
    RunIsSound(es);
    StateGoesOn(Run(Init, es).value, SendTraces(es), RecvTraces(es), e);
  }

  predicate MayFollow(ts: seq<SendTrace>, us: seq<RecvTrace>, e: Event) {
    match e
    case BeginSend(_) => ts == [] || (var t := ts[|ts| - 1]; Finished(|t.data|, t.answers))
    case BeginRecv(_) => us == [] || (var u := us[|us| - 1]; Finished(u.size, u.answers))
    case SendAnswer(a) =>
      ts != [] && (var t := ts[|ts| - 1];
                   !Finished(|t.data|, t.answers) && (a.Moved? ==> Total(t.answers) + a.n <= |t.data|))
    case RecvAnswer(a) =>
      us != [] && (var u := us[|us| - 1];
                   && !Finished(u.size, u.answers)
                   && (a.Moved? ==> Total(u.answers) + a.n <= u.size && CountOf(us, |us|) + a.n <= |Stream(ts, |ts|)|))
  }

  lemma StateGoesOn(s: System, ts: seq<SendTrace>, us: seq<RecvTrace>, e: Event)
    requires Follows(s, ts, us) && Inv(s)
    ensures Enabled(s, e) <==> MayFollow(ts, us, e)
  {
    if (e.BeginSend? || e.SendAnswer?) && ts != [] {
      LastSend(s, ts);
    }
    if (e.BeginRecv? || e.RecvAnswer?) && us != [] {
      LastRecv(s, us);
      UnderWay(s, ts, us);
    }
  }

  lemma LastSend(s: System, ts: seq<SendTrace>)
    requires ts != [] && |s.sends| == |ts| && SendMatches(s.sends[|ts| - 1], ts[|ts| - 1])
    ensures var t, l := ts[|ts| - 1], s.sends[|ts| - 1].loop;
            && l.size == |t.data| && l.moved == Total(t.answers)
            && (SendIdle(s) <==> Finished(|t.data|, t.answers))
            && (!SendIdle(s) ==> l.moved < l.size)
  {
    var t := ts[|ts| - 1];
    SendMeaning(s.sends[|ts| - 1], t);
    StillRunning(|t.data|, t.answers);
  }

  lemma LastRecv(s: System, us: seq<RecvTrace>)
    requires us != [] && |s.recvs| == |us| && RecvMatches(s.recvs[|us| - 1], us[|us| - 1])
    ensures var u, l := us[|us| - 1], s.recvs[|us| - 1].loop;
            && l.size == u.size && l.moved == Total(u.answers)
            && (RecvIdle(s) <==> Finished(u.size, u.answers))
            && (!RecvIdle(s) ==> l.moved < l.size)
  {
    var u := us[|us| - 1];
    RecvMeaning(s.recvs[|us| - 1], u);
    StillRunning(u.size, u.answers);
  }

  /** Such runs exist: any data sent in one call and received in one arrives as it was sent. */
  lemma OneTransfer(data: seq<u8>)
    requires data != []
    ensures var n := |data|;
            var es := [BeginSend(data), SendAnswer(Moved(n)), BeginRecv(n), RecvAnswer(Moved(n))];
            && Run(Init, es).Some?
            && Run(Init, es).value.recvs == [RecvCall(data, Loop(n, n, Done))]
            && Run(Init, es).value.queue == []
  {
    var n := |data|;
    var s1 := Step(Init, BeginSend(data));
    var s2 := Step(s1, SendAnswer(Moved(n)));
    var s3 := Step(s2, BeginRecv(n));
    var e1, e2, e3, e4 := BeginSend(data), SendAnswer(Moved(n)), BeginRecv(n), RecvAnswer(Moved(n));
    RunLast(Init, [], e1);
    RunLast(Init, [e1], e2);
    RunLast(Init, [e1, e2], e3);
    RunLast(Init, [e1, e2, e3], e4);
    assert [] + [e1] == [e1] && [e1] + [e2] == [e1, e2] && [e1, e2] + [e3] == [e1, e2, e3];
    assert [e1, e2, e3] + [e4] == [e1, e2, e3, e4];
    assert s2.queue == data && s3.recvs == [RecvCall([], Start(n))];
  }
}
