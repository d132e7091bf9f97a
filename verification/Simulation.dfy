/** Each call of the sequential code is a run of protocol steps on the encoded channels. */
module Simulation {
  import opened Options
  import opened Wire
  import opened Collective
  import opened Communicator

  /** The bytes on a channel that holds the given messages. */
  function Encoded(ms: seq<Message>): seq<byte> {
    if ms == [] then [] else Frame(TagOf(ms[0].kind), ms[0].payload) + Encoded(ms[1..])
  }

  lemma {:induction false} EncodedMore(ms: seq<Message>, m: Message)
    ensures Encoded(ms + [m]) == Encoded(ms) + Frame(TagOf(m.kind), m.payload)
    decreases |ms|
  {
    if ms == [] {
      assert (ms + [m])[1..] == [];
    } else {
      assert (ms + [m])[1..] == ms[1..] + [m];
      EncodedMore(ms[1..], m);
    }
  }

  ghost predicate Sendable(ms: seq<Message>) {
    forall k :: 0 <= k < |ms| ==> |ms[k].payload| < Range(8)
  }

  /** A read takes the channel's first message exactly when it fits the call. */
  lemma EncodedRead(ms: seq<Message>, call: Call)
    requires Sendable(ms)
    ensures Wire.ReadFrame(Encoded(ms), TagOf(call.kind), call.length).Some? <==> ms != [] && ms[0].Fits(call)
    ensures ms != [] && ms[0].Fits(call) ==>
              Wire.ReadFrame(Encoded(ms), TagOf(call.kind), call.length) == Some((ms[0].payload, Encoded(ms[1..])))
  {
    if ms != [] {
      FitsIsRead(ms[0], call, Encoded(ms[1..]));
    }
  }

  /** Steps lead from s to t. */
  ghost predicate Leads(w: World, s: State, t: State)
    requires w.Valid()
  {
    exists trace: seq<State> :: LeadsBy(w, trace, s, t)
  }

  ghost predicate LeadsBy(w: World, trace: seq<State>, s: State, t: State)
    requires w.Valid()
  {
    trace != [] && trace[0] == s && trace[|trace| - 1] == t && forall k :: 0 < k < |trace| ==> Steps(w, trace[k - 1], trace[k])
  }

  lemma LeadsNowhere(w: World, s: State)
    requires w.Valid()
    ensures Leads(w, s, s)
  {
    assert LeadsBy(w, [s], s, s);
  }

  lemma LeadsFurther(w: World, s: State, t: State, u: State)
    requires w.Valid() && Leads(w, s, t) && Steps(w, t, u)
    ensures Leads(w, s, u)
  {
    hide Steps;
    var trace: seq<State> :| LeadsBy(w, trace, s, t);
    var more := trace + [u];
    forall k | 0 < k < |more| ensures Steps(w, more[k - 1], more[k]) {
    }
    assert LeadsBy(w, more, s, u);
  }

  // ----- the hub -----

  /** The hub is about to call, with channels to every spoke. */
  ghost predicate HubReady(w: World, s: State)
    requires w.Valid()
  {
    && s.hub.phase.HubIdle? && s.hub.round < |w.calls[0]|
    && |s.spokes| == |s.up| == |s.down| == w.spokes
  }

  /** The first n spokes have sent a frame that fits the hub's call. */
  ghost predicate FirstFit(w: World, s: State, n: nat)
    requires w.Valid() && HubReady(w, s) && n <= w.spokes
  {
    forall i :: 0 <= i < n ==> s.up[i] != [] && s.up[i][0].Fits(w.calls[0][s.hub.round])
  }

  /** The hub's buffer after it has read the first n frames. */
  ghost function Buffer(w: World, s: State, n: nat): (r: seq<byte>)
    requires w.Valid() && HubReady(w, s) && n <= w.spokes && FirstFit(w, s, n)
    ensures |r| == |w.input(0, s.hub.round)|
  {
    if n == 0 then w.input(0, s.hub.round) else w.combine(Buffer(w, s, n - 1), s.up[n - 1][0].payload)
  }

  /** The state when the hub has read the first n frames. */
  ghost function AfterReading(w: World, s: State, n: nat): State
    requires w.Valid() && HubReady(w, s) && n <= w.spokes && FirstFit(w, s, n)
  {
    s.(hub := s.hub.(phase := Gather(n, Buffer(w, s, n))),
       up := seq(|s.up|, i requires 0 <= i < |s.up| => if i < n then s.up[i][1..] else s.up[i]))
  }

  lemma {:induction false} LeadsToReading(w: World, s: State, n: nat)
    requires w.Valid() && HubReady(w, s) && n <= w.spokes && FirstFit(w, s, n)
    ensures Leads(w, s, AfterReading(w, s, n))
    decreases n
  {
    if n == 0 {
      LeadsNowhere(w, s);
      assert AfterReading(w, s, 0).up == s.up;
      assert HubEnters(w, s, AfterReading(w, s, 0));
      LeadsFurther(w, s, s, AfterReading(w, s, 0));
    } else {
      LeadsToReading(w, s, n - 1);
      var t, u := AfterReading(w, s, n - 1), AfterReading(w, s, n);
      assert u.up == t.up[n - 1 := t.up[n - 1][1..]];
      assert HubReads(w, t, u);
      LeadsFurther(w, s, t, u);
    }
  }

  /** The state when the hub has sent its buffer to the first n spokes. */
  ghost function AfterWriting(w: World, s: State, n: nat): State
    requires w.Valid() && HubReady(w, s) && n <= w.spokes && FirstFit(w, s, w.spokes)
  {
    var buf := Buffer(w, s, w.spokes);
    var m := Message(w.calls[0][s.hub.round].kind, buf);
    AfterReading(w, s, w.spokes).(hub := s.hub.(phase := Broadcast(n, buf)),
       down := seq(|s.down|, i requires 0 <= i < |s.down| => if i < n then s.down[i] + [m] else s.down[i]))
  }

  lemma {:induction false} LeadsToWriting(w: World, s: State, n: nat)
    requires w.Valid() && HubReady(w, s) && n <= w.spokes && FirstFit(w, s, w.spokes)
    ensures Leads(w, s, AfterWriting(w, s, n))
    decreases n
  {
    var u := AfterWriting(w, s, n);
    if n == 0 {
      LeadsToReading(w, s, w.spokes);
      var t := AfterReading(w, s, w.spokes);
      assert u.down == t.down;
      assert HubTurns(w, t, u);
      LeadsFurther(w, s, t, u);
    } else {
      LeadsToWriting(w, s, n - 1);
      var t := AfterWriting(w, s, n - 1);
      assert u.down == t.down[n - 1 := t.down[n - 1] + [Message(w.calls[0][s.hub.round].kind, Buffer(w, s, w.spokes))]];
      assert HubWrites(w, t, u);
      LeadsFurther(w, s, t, u);
    }
  }

  /** The state when the hub has returned. */
  ghost function AfterReturning(w: World, s: State): State
    requires w.Valid() && HubReady(w, s) && FirstFit(w, s, w.spokes)
  {
    AfterWriting(w, s, w.spokes).(hub := Hub(s.hub.round + 1, HubIdle, s.hub.results + [Buffer(w, s, w.spokes)]))
  }

  lemma LeadsToReturning(w: World, s: State)
    requires w.Valid() && HubReady(w, s) && FirstFit(w, s, w.spokes)
    ensures Leads(w, s, AfterReturning(w, s))
  {
    LeadsToWriting(w, s, w.spokes);
    assert HubReturns(w, AfterWriting(w, s, w.spokes), AfterReturning(w, s));
    LeadsFurther(w, s, AfterWriting(w, s, w.spokes), AfterReturning(w, s));
  }

  /** The hub fails at the first spoke n whose frame does not fit, or that has closed. */
  lemma LeadsToFailing(w: World, s: State, n: nat)
    requires w.Valid() && HubReady(w, s) && n < w.spokes && FirstFit(w, s, n) && !FirstFit(w, s, n + 1)
    requires s.up[n] == [] ==> SpokeDone(w, s, n)
    ensures Leads(w, s, AfterReading(w, s, n).(hub := s.hub.(phase := HubFailed(n))))
  {
    LeadsToReading(w, s, n);
    var t := AfterReading(w, s, n);
    var u := t.(hub := s.hub.(phase := HubFailed(n)));
    assert HubReads(w, t, u) || HubSeesEnd(w, t, u);
    LeadsFurther(w, s, t, u);
  }

  // ----- the hub's code -----

  /** The streams hold exactly the bytes of the channels' messages. */
  ghost predicate Mirrors(streams: seq<seq<byte>>, channels: seq<seq<Message>>) {
    |streams| == |channels| && forall i :: 0 <= i < |streams| ==> MirrorsOne(streams[i], channels[i])
  }

  ghost predicate MirrorsOne(stream: seq<byte>, channel: seq<Message>) {
    stream == Encoded(channel) && Sendable(channel)
  }

  /** The code finds a frame to read exactly where the protocol's hub does. */
  lemma SentIsFit(w: World, s: State, streams: seq<seq<byte>>, n: nat)
    requires w.Valid() && HubReady(w, s) && Mirrors(streams, s.up) && n <= w.spokes
    ensures var call := w.calls[0][s.hub.round];
            AllSent(streams, TagOf(call.kind), call.length, n) <==> FirstFit(w, s, n)
  {
    hide Wire.ReadFrame;
    var call := w.calls[0][s.hub.round];
    forall i | 0 <= i < n
      ensures Wire.ReadFrame(streams[i], TagOf(call.kind), call.length).Some? <==> s.up[i] != [] && s.up[i][0].Fits(call)
    {
      assert MirrorsOne(streams[i], s.up[i]);
      EncodedRead(s.up[i], call);
    }
  }

  lemma {:induction false} FoldedIsBuffer(w: World, add: (Word, Word) -> Word, s: State, streams: seq<seq<byte>>, n: nat)
    requires w.Valid() && HubReady(w, s) && Mirrors(streams, s.up) && n <= w.spokes && FirstFit(w, s, n)
    requires w.combine == ((a: seq<byte>, b: seq<byte>) => Reduced(add, a, b)) && w.calls[0][s.hub.round].kind.AllReduce?
    requires AllSent(streams, TAG_ALL_REDUCE, |w.input(0, s.hub.round)|, n)
    ensures Folded(add, w.input(0, s.hub.round), streams, TAG_ALL_REDUCE, n) == Buffer(w, s, n)
    decreases n
  {
    if n > 0 {
      hide Wire.ReadFrame, Reduced;
      FoldedIsBuffer(w, add, s, streams, n - 1);
      assert MirrorsOne(streams[n - 1], s.up[n - 1]);
      EncodedRead(s.up[n - 1], w.calls[0][s.hub.round]);
    }
  }

  /** Taking the frames off the streams is taking the messages off the channels. */
  lemma TakenIsRead(w: World, s: State, before: seq<seq<byte>>, after: seq<seq<byte>>)
    requires w.Valid() && HubReady(w, s) && Mirrors(before, s.up) && FirstFit(w, s, w.spokes) && |after| == |before|
    requires var call := w.calls[0][s.hub.round];
             AllSent(before, TagOf(call.kind), call.length, w.spokes) && FramesTaken(before, after, TagOf(call.kind), call.length, w.spokes)
    ensures Mirrors(after, AfterReading(w, s, w.spokes).up)
  {
    hide Wire.ReadFrame;
    forall i | 0 <= i < |after| ensures MirrorsOne(after[i], AfterReading(w, s, w.spokes).up[i]) {
      assert MirrorsOne(before[i], s.up[i]);
      EncodedRead(s.up[i], w.calls[0][s.hub.round]);
    }
  }

  /** What the hub's call leaves when it succeeds: its round is over, with the given result, its
      reads are taken off the channels, and every spoke is sent the result. */
  ghost predicate HubCalled(w: World, s: State, t: State, result: seq<byte>, incoming: seq<seq<byte>>)
    requires w.Valid() && HubReady(w, s)
  {
    && t.hub == Hub(s.hub.round + 1, HubIdle, s.hub.results + [result]) && t.spokes == s.spokes
    && Mirrors(incoming, t.up) && |t.down| == |s.down|
    && var m := Message(w.calls[0][s.hub.round].kind, result);
    && forall i :: 0 <= i < |s.down| ==> t.down[i] == s.down[i] + [m]
  }

  lemma EncodedOne(m: Message)
    ensures Encoded([m]) == Frame(TagOf(m.kind), m.payload)
  {
    assert [m][1..] == [] && Encoded([m]) == Frame(TagOf(m.kind), m.payload) + Encoded([m][1..]);
  }

  lemma HubCallSucceeds(w: World, s: State, before: seq<seq<byte>>, after: seq<seq<byte>>)
    requires w.Valid() && HubReady(w, s) && Mirrors(before, s.up) && FirstFit(w, s, w.spokes) && |after| == |before|
    requires var call := w.calls[0][s.hub.round];
             AllSent(before, TagOf(call.kind), call.length, w.spokes) && FramesTaken(before, after, TagOf(call.kind), call.length, w.spokes)
    ensures var result := Buffer(w, s, w.spokes);
            && Leads(w, s, AfterReturning(w, s))
            && HubCalled(w, s, AfterReturning(w, s), result, after)
  {
    LeadsToReturning(w, s);
    TakenIsRead(w, s, before, after);
  }

  /** A stream that holds no further frame is one whose writer has closed it. */
  ghost predicate NoneToCome(w: World, s: State)
    requires w.Valid() && HubReady(w, s)
  {
    forall i: nat :: i < w.spokes && s.up[i] == [] ==> SpokeDone(w, s, i)
  }

  lemma HubCallFails(w: World, s: State) returns (t: State)
    requires w.Valid() && HubReady(w, s) && !FirstFit(w, s, w.spokes)
    requires NoneToCome(w, s)
    ensures Leads(w, s, t) && t.hub.phase.HubFailed? && t.hub.round == s.hub.round
  {
    var n: nat := 0;
    while FirstFit(w, s, n + 1)
      invariant n < w.spokes && FirstFit(w, s, n)
      decreases w.spokes - n
    {
      n := n + 1;
    }
    LeadsToFailing(w, s, n);
    t := AfterReading(w, s, n).(hub := s.hub.(phase := HubFailed(n)));
  }

  /** Steps keep the protocol invariant. */
  lemma LeadsKeepsInv(w: World, s: State, t: State)
    requires w.Valid() && Inv(w, s) && Leads(w, s, t)
    ensures Inv(w, t)
  {
    hide Inv, Steps;
    var trace: seq<State> :| LeadsBy(w, trace, s, t);
    for k := 1 to |trace|
      invariant Inv(w, trace[k - 1])
    {
      StepKeepsInv(w, trace[k - 1], trace[k]);
    }
  }

  /** In a reachable state the hub's result is the left fold of the round. */
  lemma HubResultIsTotal(w: World, s: State, t: State, result: seq<byte>, incoming: seq<seq<byte>>)
    requires w.Valid() && HubReady(w, s) && Inv(w, s) && Leads(w, s, t) && HubCalled(w, s, t, result, incoming)
    ensures result == w.Total(s.hub.round, w.spokes)
  {
    LeadsKeepsInv(w, s, t);
    assert t.hub.results[s.hub.round] == result;
  }

  /** The hub's all-reduce, beside the protocol: its call is a run of protocol steps, which ends in
      a return exactly when the call succeeds. */
  method HubAllReduceRuns(peers: seq<Stream>, buf: array<byte>, add: (Word, Word) -> Word, ghost w: World, ghost s: State)
    returns (ok: bool, ghost t: State)
    requires Distinct(peers) && w.Valid() && HubReady(w, s) && NoneToCome(w, s) && Mirrors(Incoming(peers), s.up)
    requires w.combine == ((a: seq<byte>, b: seq<byte>) => Reduced(add, a, b))
    requires w.calls[0][s.hub.round] == Call(AllReduce, buf.Length) && buf.Length % 4 == 0 && buf[..] == w.input(0, s.hub.round)
    modifies peers, buf
    ensures Leads(w, s, t)
    ensures !ok ==> t.hub.phase.HubFailed? && t.hub.round == s.hub.round
    ensures ok ==> HubCalled(w, s, t, buf[..], Incoming(peers))
    ensures ok ==> FramesAdded(old(Outgoing(peers)), Outgoing(peers), Encoded([Message(AllReduce, buf[..])]), |peers|)
    ensures ok && Inv(w, s) ==> buf[..] == w.Total(s.hub.round, w.spokes)
  {
    ghost var before := Incoming(peers);
    SentIsFit(w, s, before, w.spokes);
    hide Wire.ReadFrame, Wire.Frame, Reduced, AllSent, Distinct, Leads, FirstFit, FramesTaken, FramesAdded, HubCalled, Inv;
    ok := HubAllReduce(peers, buf, add);
    if ok {
      FoldedIsBuffer(w, add, s, before, w.spokes);
      HubCallSucceeds(w, s, before, Incoming(peers));
      EncodedOne(Message(AllReduce, buf[..]));
      t := AfterReturning(w, s);
      if Inv(w, s) {
        HubResultIsTotal(w, s, t, buf[..], Incoming(peers));
      }
    } else {
      t := HubCallFails(w, s);
    }
  }

  /** The hub's barrier, beside the protocol. */
  method HubBarrierRuns(peers: seq<Stream>, ghost w: World, ghost s: State) returns (ok: bool, ghost t: State)
    requires Distinct(peers) && w.Valid() && HubReady(w, s) && NoneToCome(w, s) && Mirrors(Incoming(peers), s.up)
    requires w.calls[0][s.hub.round] == Call(Barrier, 0)
    modifies peers
    ensures Leads(w, s, t)
    ensures !ok ==> t.hub.phase.HubFailed? && t.hub.round == s.hub.round
    ensures ok ==> HubCalled(w, s, t, [], Incoming(peers))
    ensures ok ==> FramesAdded(old(Outgoing(peers)), Outgoing(peers), Encoded([Message(Barrier, [])]), |peers|)
  {
    ghost var before := Incoming(peers);
    SentIsFit(w, s, before, w.spokes);
    hide Wire.ReadFrame, Wire.Frame, AllSent, Distinct, Leads, FirstFit, FramesTaken, FramesAdded, HubCalled;
    ok := HubBarrier(peers);
    if ok {
      HubCallSucceeds(w, s, before, Incoming(peers));
      EncodedOne(Message(Barrier, []));
      assert Buffer(w, s, w.spokes) == [];
      t := AfterReturning(w, s);
    } else {
      t := HubCallFails(w, s);
    }
  }

  // ----- a spoke's code -----

  /** Spoke i is about to call. */
  ghost predicate SpokeReady(w: World, s: State, i: nat)
    requires w.Valid()
  {
    && i < w.spokes && |s.spokes| == |s.up| == |s.down| == w.spokes
    && s.spokes[i].phase.SpokeIdle? && s.spokes[i].round < |w.calls[i + 1]|
  }

  /** The state when spoke i has sent its frame. */
  ghost function AfterSending(w: World, s: State, i: nat): State
    requires w.Valid() && SpokeReady(w, s, i)
  {
    s.(spokes := s.spokes[i := s.spokes[i].(phase := Waiting)],
       up := s.up[i := s.up[i] + [Message(w.calls[i + 1][s.spokes[i].round].kind, w.input(i + 1, s.spokes[i].round))]])
  }

  /** The others bring the state from the spoke's send to `later`, in which its answer is there or
      will never come. */
  ghost predicate Answered(w: World, s: State, i: nat, later: State, incoming: seq<byte>)
    requires w.Valid() && SpokeReady(w, s, i)
  {
    && Leads(w, AfterSending(w, s, i), later) && |later.spokes| == |later.down| == w.spokes
    && later.spokes[i] == s.spokes[i].(phase := Waiting)
    && MirrorsOne(incoming, later.down[i]) && (later.down[i] == [] ==> HubDone(w, later))
  }

  /** The state when spoke i has taken the hub's answer, or failed for want of a fitting one. */
  ghost function AfterAnswer(w: World, s: State, i: nat): State
    requires w.Valid() && i < w.spokes && |s.spokes| == |s.down| == w.spokes && s.spokes[i].round < |w.calls[i + 1]|
  {
    var p := s.spokes[i];
    if s.down[i] != [] && s.down[i][0].Fits(w.calls[i + 1][p.round]) then
      s.(spokes := s.spokes[i := Spoke(p.round + 1, SpokeIdle, p.results + [s.down[i][0].payload])], down := s.down[i := s.down[i][1..]])
    else s.(spokes := s.spokes[i := p.(phase := SpokeFailed(true))])
  }

  /** The read of the answer is one protocol step, which returns exactly when the read succeeds. */
  lemma AnswerIsStep(w: World, s: State, i: nat, later: State, incoming: seq<byte>)
    requires w.Valid() && SpokeReady(w, s, i) && Answered(w, s, i, later, incoming)
    ensures var t, call := AfterAnswer(w, later, i), w.calls[i + 1][s.spokes[i].round];
            var answer := Wire.ReadFrame(incoming, TagOf(call.kind), call.length);
            && Leads(w, s, AfterSending(w, s, i)) && Steps(w, later, t) && |t.spokes| == |t.down| == w.spokes
            && if answer.Some? then
                 && t.spokes[i] == Spoke(s.spokes[i].round + 1, SpokeIdle, s.spokes[i].results + [answer.value.0])
                 && MirrorsOne(answer.value.1, t.down[i])
               else t.spokes[i].phase.SpokeFailed?
  {
    hide Wire.ReadFrame;
    LeadsNowhere(w, s);
    assert SpokeEnters(w, s, AfterSending(w, s, i), i);
    LeadsFurther(w, s, s, AfterSending(w, s, i));
    var t := AfterAnswer(w, later, i);
    EncodedRead(later.down[i], w.calls[i + 1][s.spokes[i].round]);
    assert SpokeReturns(w, later, t, i) || SpokeSeesEnd(w, later, t, i);
  }

  lemma SpokeResultIsTotal(w: World, s: State, i: nat, later: State, t: State, result: seq<byte>)
    requires w.Valid() && SpokeReady(w, s, i) && Inv(w, s) && Leads(w, s, AfterSending(w, s, i))
    requires Leads(w, AfterSending(w, s, i), later) && Steps(w, later, t) && |t.spokes| == w.spokes
    requires t.spokes[i] == Spoke(s.spokes[i].round + 1, SpokeIdle, s.spokes[i].results + [result])
    ensures result == w.Total(s.spokes[i].round, w.spokes)
  {
    hide Steps;
    LeadsKeepsInv(w, s, AfterSending(w, s, i));
    LeadsKeepsInv(w, AfterSending(w, s, i), later);
    StepKeepsInv(w, later, t);
    assert SpokeInv(w, s, i) && SpokeInv(w, t, i);
    assert t.spokes[i].results[s.spokes[i].round] == result;
  }

  /** A spoke's all-reduce, beside the protocol: a step that sends, the steps of the others until
      the answer is there, and a step that takes it. */
  method SpokeAllReduceRuns(hub: Stream, buf: array<byte>, ghost w: World, ghost s: State, ghost i: nat, ghost later: State)
    returns (ok: bool, ghost t: State)
    requires w.Valid() && SpokeReady(w, s, i) && Answered(w, s, i, later, hub.incoming)
    requires w.calls[i + 1][s.spokes[i].round] == Call(AllReduce, buf.Length) && buf.Length % 4 == 0
    requires buf[..] == w.input(i + 1, s.spokes[i].round)
    modifies hub, buf
    ensures hub.outgoing == old(hub.outgoing) + Encoded([Message(AllReduce, old(buf[..]))])
    ensures AfterSending(w, s, i).up[i] == s.up[i] + [Message(AllReduce, old(buf[..]))]
    ensures Leads(w, s, AfterSending(w, s, i)) && Steps(w, later, t) && |t.spokes| == |t.down| == w.spokes
    ensures !ok ==> t.spokes[i].phase.SpokeFailed?
    ensures ok ==> t.spokes[i] == Spoke(s.spokes[i].round + 1, SpokeIdle, s.spokes[i].results + [buf[..]])
    ensures ok ==> MirrorsOne(hub.incoming, t.down[i])
    ensures ok && Inv(w, s) ==> buf[..] == w.Total(s.spokes[i].round, w.spokes)
  {
    AnswerIsStep(w, s, i, later, hub.incoming);
    EncodedOne(Message(AllReduce, buf[..]));
    hide Wire.ReadFrame, Wire.Frame, Leads, Steps, Inv, MirrorsOne;
    ok := SpokeAllReduce(hub, buf);
    t := AfterAnswer(w, later, i);
    if ok && Inv(w, s) {
      SpokeResultIsTotal(w, s, i, later, t, buf[..]);
    }
  }

  /** A spoke's barrier, beside the protocol. */
  method SpokeBarrierRuns(hub: Stream, ghost w: World, ghost s: State, ghost i: nat, ghost later: State)
    returns (ok: bool, ghost t: State)
    requires w.Valid() && SpokeReady(w, s, i) && Answered(w, s, i, later, hub.incoming)
    requires w.calls[i + 1][s.spokes[i].round] == Call(Barrier, 0)
    modifies hub
    ensures hub.outgoing == old(hub.outgoing) + Encoded([Message(Barrier, [])])
    ensures AfterSending(w, s, i).up[i] == s.up[i] + [Message(Barrier, [])]
    ensures Leads(w, s, AfterSending(w, s, i)) && Steps(w, later, t) && |t.spokes| == |t.down| == w.spokes
    ensures !ok ==> t.spokes[i].phase.SpokeFailed?
    ensures ok ==> t.spokes[i] == Spoke(s.spokes[i].round + 1, SpokeIdle, s.spokes[i].results + [[]])
    ensures ok ==> MirrorsOne(hub.incoming, t.down[i])
  {
    AnswerIsStep(w, s, i, later, hub.incoming);
    EncodedOne(Message(Barrier, []));
    assert w.input(i + 1, s.spokes[i].round) == [];
    hide Wire.ReadFrame, Wire.Frame, Leads, Steps, MirrorsOne;
    ok := SpokeBarrier(hub);
    t := AfterAnswer(w, later, i);
  }
}
