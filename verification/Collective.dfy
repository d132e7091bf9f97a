/** The star-shaped collectives: rank 0 is the hub, every other rank a spoke.  Each collective
    gathers one frame from every spoke in rank order and then sends one frame to each.  The
    ranks step in any interleaving over first-in first-out channels.  A rank that has failed, or
    has returned from its last call, closes its ends of the channels; who then reads past the
    last frame, or writes, fails too. */
module Collective {
  import opened Wire

  datatype Kind = AllReduce | Barrier

  /** One collective call: its kind and the length of its buffer. */
  datatype Call = Call(kind: Kind, length: nat)

  datatype Message = Message(kind: Kind, payload: seq<byte>) {
    /** The check a read makes before it takes the payload. */
    predicate Fits(call: Call) {
      kind == call.kind && |payload| == call.length
    }
  }

  /** A world of one hub and `spokes` spokes: what each rank calls, round by round, what it
      contributes, and how the hub folds a received payload into its buffer. */
  datatype World = World(spokes: nat, calls: seq<seq<Call>>, input: (nat, nat) -> seq<byte>, combine: (seq<byte>, seq<byte>) -> seq<byte>) {
    ghost predicate Valid() {
      && |calls| == spokes + 1
      && (forall r: nat, k: nat :: r <= spokes && k < |calls[r]| ==> |input(r, k)| == calls[r][k].length)
      && (forall a, b :: |combine(a, b)| == |a|)
    }

    /** The hub's buffer of round k after the first n spokes: a left fold in rank order. */
    ghost function Total(k: nat, n: nat): seq<byte> {
      if n == 0 then input(0, k) else combine(Total(k, n - 1), input(n, k))
    }
  }

  datatype HubPhase = HubIdle | Gather(next: nat, buf: seq<byte>) | Broadcast(next: nat, buf: seq<byte>) | HubFailed(next: nat)

  datatype Hub = Hub(round: nat, phase: HubPhase, results: seq<seq<byte>>)

  /** A failed spoke may have sent its frame before it failed. */
  datatype SpokePhase = SpokeIdle | Waiting | SpokeFailed(sent: bool)

  datatype Spoke = Spoke(round: nat, phase: SpokePhase, results: seq<seq<byte>>)

  /** The state of a run: up[i] holds what spoke i sent and the hub has not read, down[i] the
      other direction. */
  datatype State = State(hub: Hub, spokes: seq<Spoke>, up: seq<seq<Message>>, down: seq<seq<Message>>)

  ghost predicate Start(w: World, s: State) {
    && s.hub == Hub(0, HubIdle, [])
    && |s.spokes| == |s.up| == |s.down| == w.spokes
    && forall i :: 0 <= i < w.spokes ==> s.spokes[i] == Spoke(0, SpokeIdle, []) && s.up[i] == [] && s.down[i] == []
  }

  // ----- steps -----

  /** The hub enters its next collective. */
  ghost predicate HubEnters(w: World, s: State, t: State)
    requires w.Valid()
  {
    && s.hub.phase.HubIdle? && s.hub.round < |w.calls[0]|
    && t == s.(hub := s.hub.(phase := Gather(0, w.input(0, s.hub.round))))
  }

  /** The hub takes the next spoke's frame, or fails when the frame does not fit. */
  ghost predicate HubReads(w: World, s: State, t: State)
    requires w.Valid()
  {
    && s.hub.phase.Gather? && s.hub.round < |w.calls[0]|
    && var i := s.hub.phase.next;
    && i < w.spokes && i < |s.up| && s.up[i] != []
    && t == if s.up[i][0].Fits(w.calls[0][s.hub.round]) then
              s.(hub := s.hub.(phase := Gather(i + 1, w.combine(s.hub.phase.buf, s.up[i][0].payload))), up := s.up[i := s.up[i][1..]])
            else s.(hub := s.hub.(phase := HubFailed(i)))
  }

  /** All spokes are read: the hub starts to send. */
  ghost predicate HubTurns(w: World, s: State, t: State) {
    && s.hub.phase.Gather? && s.hub.phase.next == w.spokes
    && t == s.(hub := s.hub.(phase := Broadcast(0, s.hub.phase.buf)))
  }

  ghost predicate HubWrites(w: World, s: State, t: State)
    requires w.Valid()
  {
    && s.hub.phase.Broadcast? && s.hub.round < |w.calls[0]|
    && var i := s.hub.phase.next;
    && i < w.spokes && i < |s.down|
    && t == s.(hub := s.hub.(phase := Broadcast(i + 1, s.hub.phase.buf)),
               down := s.down[i := s.down[i] + [Message(w.calls[0][s.hub.round].kind, s.hub.phase.buf)]])
  }

  ghost predicate HubReturns(w: World, s: State, t: State) {
    && s.hub.phase.Broadcast? && s.hub.phase.next == w.spokes
    && t == s.(hub := Hub(s.hub.round + 1, HubIdle, s.hub.results + [s.hub.phase.buf]))
  }

  /** Spoke i, rank i + 1, enters its next collective: it sends its buffer. */
  ghost predicate SpokeEnters(w: World, s: State, t: State, i: nat)
    requires w.Valid()
  {
    && i < w.spokes && i < |s.spokes| && i < |s.up|
    && s.spokes[i].phase.SpokeIdle? && s.spokes[i].round < |w.calls[i + 1]|
    && t == s.(spokes := s.spokes[i := s.spokes[i].(phase := Waiting)],
               up := s.up[i := s.up[i] + [Message(w.calls[i + 1][s.spokes[i].round].kind, w.input(i + 1, s.spokes[i].round))]])
  }

  /** Spoke i takes the hub's frame and returns, or fails when the frame does not fit. */
  ghost predicate SpokeReturns(w: World, s: State, t: State, i: nat)
    requires w.Valid()
  {
    && i < w.spokes && i < |s.spokes| && i < |s.down|
    && s.spokes[i].phase.Waiting? && s.spokes[i].round < |w.calls[i + 1]| && s.down[i] != []
    && t == if s.down[i][0].Fits(w.calls[i + 1][s.spokes[i].round]) then
              s.(spokes := s.spokes[i := Spoke(s.spokes[i].round + 1, SpokeIdle, s.spokes[i].results + [s.down[i][0].payload])],
                 down := s.down[i := s.down[i][1..]])
            else s.(spokes := s.spokes[i := s.spokes[i].(phase := SpokeFailed(true))])
  }

  /** The hub has closed its channels. */
  ghost predicate HubDone(w: World, s: State)
    requires w.Valid()
  {
    s.hub.phase.HubFailed? || (s.hub.phase.HubIdle? && s.hub.round == |w.calls[0]|)
  }

  ghost predicate SpokeDone(w: World, s: State, i: nat)
    requires w.Valid() && i < w.spokes && i < |s.spokes|
  {
    s.spokes[i].phase.SpokeFailed? || (s.spokes[i].phase.SpokeIdle? && s.spokes[i].round == |w.calls[i + 1]|)
  }

  /** The hub waits for a frame of a spoke that has closed its channels. */
  ghost predicate HubSeesEnd(w: World, s: State, t: State)
    requires w.Valid()
  {
    && s.hub.phase.Gather? && s.hub.round < |w.calls[0]|
    && var i := s.hub.phase.next;
    && i < w.spokes && i < |s.up| && i < |s.spokes| && s.up[i] == [] && SpokeDone(w, s, i)
    && t == s.(hub := s.hub.(phase := HubFailed(i)))
  }

  /** Spoke i writes to the hub, or waits for its frame, when the hub has closed the channels. */
  ghost predicate SpokeSeesEnd(w: World, s: State, t: State, i: nat)
    requires w.Valid()
  {
    && i < w.spokes && i < |s.spokes| && i < |s.down| && s.spokes[i].round < |w.calls[i + 1]|
    && (s.spokes[i].phase.SpokeIdle? || (s.spokes[i].phase.Waiting? && s.down[i] == [])) && HubDone(w, s)
    && t == s.(spokes := s.spokes[i := s.spokes[i].(phase := SpokeFailed(s.spokes[i].phase.Waiting?))])
  }

  ghost predicate HubSteps(w: World, s: State, t: State)
    requires w.Valid()
  {
    HubEnters(w, s, t) || HubReads(w, s, t) || HubTurns(w, s, t) || HubWrites(w, s, t) || HubReturns(w, s, t)
    || HubSeesEnd(w, s, t)
  }

  ghost predicate Steps(w: World, s: State, t: State)
    requires w.Valid()
  {
    || HubSteps(w, s, t)
    || (exists i: nat :: SpokeEnters(w, s, t, i))
    || (exists i: nat :: SpokeReturns(w, s, t, i))
    || (exists i: nat :: SpokeSeesEnd(w, s, t, i))
  }

  /** A finite run from the start, in any interleaving. */
  ghost predicate Run(w: World, run: seq<State>)
    requires w.Valid()
  {
    run != [] && Start(w, run[0]) && forall k :: 0 < k < |run| ==> Steps(w, run[k - 1], run[k])
  }

  // ----- counting frames -----

  /** The frames the hub has read from spoke i. */
  ghost function Gathered(s: State, i: nat): nat {
    s.hub.round + if s.hub.phase.Broadcast? || ((s.hub.phase.Gather? || s.hub.phase.HubFailed?) && i < s.hub.phase.next) then 1 else 0
  }

  /** The frames the hub has sent to spoke i. */
  ghost function Sent(s: State, i: nat): nat {
    s.hub.round + if s.hub.phase.Broadcast? && i < s.hub.phase.next then 1 else 0
  }

  /** The collectives spoke i has entered. */
  ghost function Entered(s: State, i: nat): nat
    requires i < |s.spokes|
  {
    s.spokes[i].round + if s.spokes[i].phase.SpokeIdle? || s.spokes[i].phase == SpokeFailed(false) then 0 else 1
  }

  ghost function HubEntered(s: State): nat {
    s.hub.round + if s.hub.phase.HubIdle? then 0 else 1
  }

  ghost predicate SameCall(w: World, i: nat, k: nat)
    requires w.Valid()
  {
    i < w.spokes && k < |w.calls[0]| && k < |w.calls[i + 1]| && w.calls[0][k] == w.calls[i + 1][k]
  }

  // ----- the invariant -----

  ghost predicate HubInv(w: World, s: State)
    requires w.Valid()
  {
    && s.hub.round == |s.hub.results| <= |w.calls[0]|
    && (!s.hub.phase.HubIdle? ==> s.hub.round < |w.calls[0]|)
    && (forall k :: 0 <= k < s.hub.round ==> s.hub.results[k] == w.Total(k, w.spokes))
    && (s.hub.phase.Gather? ==> s.hub.phase.next <= w.spokes && s.hub.phase.buf == w.Total(s.hub.round, s.hub.phase.next))
    && (s.hub.phase.Broadcast? ==> s.hub.phase.next <= w.spokes && s.hub.phase.buf == w.Total(s.hub.round, w.spokes))
  }

  /** What holds of spoke i and its two channels: neither runs more than one frame ahead, and
      every frame belongs to the round in which it is read. */
  ghost predicate SpokeInv(w: World, s: State, i: nat)
    requires w.Valid() && i < w.spokes && i < |s.spokes| && i < |s.up| && i < |s.down|
  {
    var p := s.spokes[i];
    && p.round == |p.results| <= |w.calls[i + 1]|
    && (!p.phase.SpokeIdle? ==> p.round < |w.calls[i + 1]|)
    && (p.phase.SpokeFailed? ==> HubDone(w, s) && s.down[i] == [])
    && (forall k :: 0 <= k < p.round ==> p.results[k] == w.Total(k, w.spokes))
    && p.round <= Sent(s, i) && Gathered(s, i) <= Entered(s, i)
    && (forall k: nat :: k < Gathered(s, i) ==> SameCall(w, i, k))
    && s.up[i] == (if Gathered(s, i) == Entered(s, i) then [] else [Message(w.calls[i + 1][p.round].kind, w.input(i + 1, p.round))])
    && s.down[i] == (if p.round == Sent(s, i) then [] else [Message(w.calls[i + 1][p.round].kind, w.Total(p.round, w.spokes))])
  }

  /** A failed hub has met a spoke whose frame is of another collective. */
  ghost predicate FailInv(w: World, s: State)
    requires w.Valid()
  {
    s.hub.phase.HubFailed? ==> s.hub.phase.next < w.spokes && !SameCall(w, s.hub.phase.next, s.hub.round)
  }

  ghost predicate Inv(w: World, s: State)
    requires w.Valid()
  {
    && |s.spokes| == |s.up| == |s.down| == w.spokes
    && HubInv(w, s) && FailInv(w, s)
    && forall i: nat :: i < w.spokes ==> SpokeInv(w, s, i)
  }

  /** The hub's own input comes first, then the spokes' in rank order, each folded in on the right. */
  lemma TotalInOrder(w: World, k: nat, n: nat)
    ensures w.Total(k, 0) == w.input(0, k) && w.Total(k, 1) == w.combine(w.input(0, k), w.input(1, k))
    ensures w.Total(k, 2) == w.combine(w.combine(w.input(0, k), w.input(1, k)), w.input(2, k))
    ensures w.Total(k, n + 1) == w.combine(w.Total(k, n), w.input(n + 1, k))
  {
    assert w.Total(k, 1) == w.combine(w.Total(k, 0), w.input(1, k));
  }

  lemma {:induction false} TotalLength(w: World, k: nat, n: nat)
    requires w.Valid() && k < |w.calls[0]|
    ensures |w.Total(k, n)| == w.calls[0][k].length
    decreases n
  {
    if n > 0 {
      TotalLength(w, k, n - 1);
    }
  }

  lemma StartInv(w: World, s: State)
    requires w.Valid() && Start(w, s)
    ensures Inv(w, s)
  {
  }

  lemma HubEntersInv(w: World, s: State, t: State)
    requires w.Valid() && Inv(w, s) && HubEnters(w, s, t)
    ensures Inv(w, t)
  {
    forall i: nat | i < w.spokes ensures SpokeInv(w, t, i) {
      assert SpokeInv(w, s, i);
    }
  }

  lemma HubReadsInv(w: World, s: State, t: State)
    requires w.Valid() && Inv(w, s) && HubReads(w, s, t)
    ensures Inv(w, t)
  {
    HubReadsHub(w, s, t);
    forall i: nat | i < w.spokes ensures SpokeInv(w, t, i) {
      HubReadsSpoke(w, s, t, i);
    }
  }

  lemma HubReadsHub(w: World, s: State, t: State)
    requires w.Valid() && Inv(w, s) && HubReads(w, s, t)
    ensures |t.spokes| == |t.up| == |t.down| == w.spokes && HubInv(w, t) && FailInv(w, t)
  {
    FrameOfRound(w, s, s.hub.phase.next);
  }

  lemma HubReadsSpoke(w: World, s: State, t: State, i: nat)
    requires w.Valid() && Inv(w, s) && HubReads(w, s, t) && i < w.spokes && |t.spokes| == |t.up| == |t.down| == w.spokes
    ensures SpokeInv(w, t, i)
  {
    FrameOfRound(w, s, s.hub.phase.next);
    assert SpokeInv(w, s, i);
    hide HubInv;
  }

  /** The next frame from spoke j is of the round it is read in. */
  lemma FrameOfRound(w: World, s: State, j: nat)
    requires w.Valid() && Inv(w, s) && s.hub.phase.Gather? && j == s.hub.phase.next < w.spokes && s.up[j] != []
    ensures Gathered(s, j) == s.hub.round && s.spokes[j].round == s.hub.round && s.up[j][1..] == []
    ensures s.up[j][0].payload == w.input(j + 1, s.hub.round)
    ensures s.up[j][0].Fits(w.calls[0][s.hub.round]) <==> SameCall(w, j, s.hub.round)
  {
    assert SpokeInv(w, s, j);
  }

  lemma HubTurnsInv(w: World, s: State, t: State)
    requires w.Valid() && Inv(w, s) && HubTurns(w, s, t)
    ensures Inv(w, t)
  {
    forall i: nat | i < w.spokes ensures SpokeInv(w, t, i) {
      assert SpokeInv(w, s, i);
    }
  }

  lemma HubWritesInv(w: World, s: State, t: State)
    requires w.Valid() && Inv(w, s) && HubWrites(w, s, t)
    ensures Inv(w, t)
  {
    var j := s.hub.phase.next;
    assert SpokeInv(w, s, j);
    assert SameCall(w, j, s.hub.round);
    assert s.spokes[j].round == s.hub.round;
    forall i: nat | i < w.spokes ensures SpokeInv(w, t, i) {
      assert SpokeInv(w, s, i);
    }
  }

  lemma HubReturnsInv(w: World, s: State, t: State)
    requires w.Valid() && Inv(w, s) && HubReturns(w, s, t)
    ensures Inv(w, t)
  {
    forall i: nat | i < w.spokes ensures SpokeInv(w, t, i) {
      assert SpokeInv(w, s, i);
    }
  }

  lemma SpokeEntersInv(w: World, s: State, t: State, j: nat)
    requires w.Valid() && Inv(w, s) && SpokeEnters(w, s, t, j)
    ensures Inv(w, t)
  {
    forall i: nat | i < w.spokes ensures SpokeInv(w, t, i) {
      assert SpokeInv(w, s, i);
    }
  }

  lemma SpokeReturnsInv(w: World, s: State, t: State, j: nat)
    requires w.Valid() && Inv(w, s) && SpokeReturns(w, s, t, j)
    ensures Inv(w, t)
  {
    SpokeReturnsOwn(w, s, t, j);
    forall i: nat | i < w.spokes ensures SpokeInv(w, t, i) {
      if i != j {
        OthersInv(w, s, t, i);
      }
    }
  }

  lemma SpokeReturnsOwn(w: World, s: State, t: State, j: nat)
    requires w.Valid() && Inv(w, s) && SpokeReturns(w, s, t, j)
    ensures SpokeInv(w, t, j)
  {
    assert SpokeInv(w, s, j);
    assert SameCall(w, j, s.spokes[j].round);
    TotalLength(w, s.spokes[j].round, w.spokes);
  }

  /** A step of another spoke keeps the invariant of spoke i. */
  lemma OthersInv(w: World, s: State, t: State, i: nat)
    requires w.Valid() && Inv(w, s) && i < w.spokes && t.hub == s.hub
    requires |t.spokes| == |t.up| == |t.down| == w.spokes
    requires t.spokes[i] == s.spokes[i] && t.up[i] == s.up[i] && t.down[i] == s.down[i]
    ensures SpokeInv(w, t, i)
  {
    assert SpokeInv(w, s, i);
  }

  lemma HubSeesEndInv(w: World, s: State, t: State)
    requires w.Valid() && Inv(w, s) && HubSeesEnd(w, s, t)
    ensures Inv(w, t)
  {
    assert SpokeInv(w, s, s.hub.phase.next);
    forall i: nat | i < w.spokes ensures SpokeInv(w, t, i) {
      assert SpokeInv(w, s, i);
    }
  }

  lemma SpokeSeesEndInv(w: World, s: State, t: State, j: nat)
    requires w.Valid() && Inv(w, s) && SpokeSeesEnd(w, s, t, j)
    ensures Inv(w, t)
  {
    assert SpokeInv(w, s, j);
    forall i: nat | i < w.spokes ensures SpokeInv(w, t, i) {
      assert SpokeInv(w, s, i);
    }
  }

  lemma StepKeepsInv(w: World, s: State, t: State)
    requires w.Valid() && Inv(w, s) && Steps(w, s, t)
    ensures Inv(w, t)
  {
    hide Inv, World.Valid;
    if HubEnters(w, s, t) {
      HubEntersInv(w, s, t);
    } else if HubReads(w, s, t) {
      HubReadsInv(w, s, t);
    } else if HubTurns(w, s, t) {
      HubTurnsInv(w, s, t);
    } else if HubWrites(w, s, t) {
      HubWritesInv(w, s, t);
    } else if HubReturns(w, s, t) {
      HubReturnsInv(w, s, t);
    } else if HubSeesEnd(w, s, t) {
      HubSeesEndInv(w, s, t);
    } else if i: nat :| SpokeEnters(w, s, t, i) {
      SpokeEntersInv(w, s, t, i);
    } else if i: nat :| SpokeReturns(w, s, t, i) {
      SpokeReturnsInv(w, s, t, i);
    } else {
      var i: nat :| SpokeSeesEnd(w, s, t, i);
      SpokeSeesEndInv(w, s, t, i);
    }
  }

  lemma {:induction false} RunKeepsInv(w: World, run: seq<State>, k: nat)
    requires w.Valid() && Run(w, run) && k < |run|
    ensures Inv(w, run[k])
    decreases k
  {
    if k == 0 {
      StartInv(w, run[0]);
    } else {
      RunKeepsInv(w, run, k - 1);
      StepKeepsInv(w, run[k - 1], run[k]);
    }
  }

  // ----- what every run keeps -----

  /** The collectives a rank has returned from. */
  ghost function Returned(s: State, rank: nat): nat
    requires rank <= |s.spokes|
  {
    if rank == 0 then s.hub.round else s.spokes[rank - 1].round
  }

  /** The collectives a rank has entered. */
  ghost function HasEntered(s: State, rank: nat): nat
    requires rank <= |s.spokes|
  {
    if rank == 0 then HubEntered(s) else Entered(s, rank - 1)
  }

  ghost function ResultsOf(s: State, rank: nat): seq<seq<byte>>
    requires rank <= |s.spokes|
  {
    if rank == 0 then s.hub.results else s.spokes[rank - 1].results
  }

  /** In every interleaving, whatever the ranks call, each round a rank returns from leaves it
      the same left fold: the hub's buffer, then rank 1, rank 2, and so on. */
  lemma RoundsAgree(w: World, run: seq<State>, k: nat, rank: nat, round: nat)
    requires w.Valid() && Run(w, run) && k < |run| && rank <= w.spokes
    ensures |run[k].spokes| == w.spokes && |ResultsOf(run[k], rank)| == Returned(run[k], rank)
    ensures round < Returned(run[k], rank) ==> ResultsOf(run[k], rank)[round] == w.Total(round, w.spokes)
  {
    RunKeepsInv(w, run, k);
    if rank > 0 {
      assert SpokeInv(w, run[k], rank - 1);
    }
  }

  /** Rounds never mix: a rank returns from a round only if every rank's call of that round has
      the same kind and length. */
  lemma RoundsNeverMix(w: World, run: seq<State>, k: nat, rank: nat, round: nat, other: nat)
    requires w.Valid() && Run(w, run) && k < |run| && rank <= w.spokes && other <= w.spokes
    ensures |run[k].spokes| == w.spokes
    ensures round < Returned(run[k], rank) ==>
              round < |w.calls[0]| && round < |w.calls[other]| && w.calls[other][round] == w.calls[0][round]
  {
    RunKeepsInv(w, run, k);
    if rank > 0 {
      assert SpokeInv(w, run[k], rank - 1);
    }
    if other > 0 && round < Returned(run[k], rank) {
      assert SpokeInv(w, run[k], other - 1);
      assert SameCall(w, other - 1, round);
    }
  }

  /** No rank returns from a collective, and so from a barrier, before every rank has entered
      it. */
  lemma NoneReturnsEarly(w: World, run: seq<State>, k: nat, rank: nat, other: nat)
    requires w.Valid() && Run(w, run) && k < |run| && rank <= w.spokes && other <= w.spokes
    ensures |run[k].spokes| == w.spokes && Returned(run[k], rank) <= HasEntered(run[k], other)
  {
    RunKeepsInv(w, run, k);
    var s := run[k];
    if rank > 0 {
      assert SpokeInv(w, s, rank - 1);
    }
    if other > 0 {
      assert SpokeInv(w, s, other - 1);
    }
  }

  /** All ranks issue the same call in round k. */
  ghost predicate AllSame(w: World, k: nat)
    requires w.Valid()
  {
    k < |w.calls[0]| && forall i: nat :: i < w.spokes ==> SameCall(w, i, k)
  }

  ghost predicate Failed(s: State, rank: nat)
    requires rank <= |s.spokes|
  {
    if rank == 0 then s.hub.phase.HubFailed? else s.spokes[rank - 1].phase.SpokeFailed?
  }

  /** A rank fails only in a round in which the ranks' calls differ. */
  lemma FailureMeansMismatch(w: World, run: seq<State>, k: nat, rank: nat)
    requires w.Valid() && Run(w, run) && k < |run| && rank <= w.spokes
    ensures |run[k].spokes| == w.spokes
    ensures Failed(run[k], rank) ==> !AllSame(w, Returned(run[k], rank))
  {
    RunKeepsInv(w, run, k);
    var s := run[k];
    if s.hub.phase.HubFailed? {
      assert !SameCall(w, s.hub.phase.next, s.hub.round);
    }
    if rank > 0 && Failed(s, rank) {
      assert SpokeInv(w, s, rank - 1);
    }
  }

  // ----- progress -----

  /** Every rank has returned from all its calls, or failed. */
  ghost predicate Ended(w: World, s: State)
    requires w.Valid()
  {
    HubDone(w, s) && |s.spokes| == w.spokes && forall i :: 0 <= i < w.spokes ==> SpokeDone(w, s, i)
  }

  ghost predicate CanStep(w: World, s: State)
    requires w.Valid()
  {
    exists t: State :: Steps(w, s, t)
  }

  lemma SpokeCanStep(w: World, s: State, i: nat)
    requires w.Valid() && Inv(w, s) && i < w.spokes && !SpokeDone(w, s, i)
    requires s.spokes[i].phase.SpokeIdle? || s.spokes[i].round < Sent(s, i) || HubDone(w, s)
    ensures CanStep(w, s)
  {
    assert SpokeInv(w, s, i);
    var p := s.spokes[i];
    if p.phase.SpokeIdle? {
      var t := s.(spokes := s.spokes[i := p.(phase := Waiting)],
                  up := s.up[i := s.up[i] + [Message(w.calls[i + 1][p.round].kind, w.input(i + 1, p.round))]]);
      assert SpokeEnters(w, s, t, i);
      assert Steps(w, s, t);
    } else if s.down[i] == [] {
      var t := s.(spokes := s.spokes[i := p.(phase := SpokeFailed(true))]);
      assert SpokeSeesEnd(w, s, t, i);
      assert Steps(w, s, t);
    } else {
      var t := if s.down[i][0].Fits(w.calls[i + 1][p.round]) then
          s.(spokes := s.spokes[i := Spoke(p.round + 1, SpokeIdle, p.results + [s.down[i][0].payload])],
             down := s.down[i := s.down[i][1..]])
        else s.(spokes := s.spokes[i := p.(phase := SpokeFailed(true))]);
      assert SpokeReturns(w, s, t, i);
      assert Steps(w, s, t);
    }
  }

  lemma HubCanStep(w: World, s: State)
    requires w.Valid() && Inv(w, s) && !HubDone(w, s)
    requires s.hub.phase.Gather? && s.hub.phase.next < w.spokes ==> s.up[s.hub.phase.next] != [] || SpokeDone(w, s, s.hub.phase.next)
    ensures CanStep(w, s)
  {
    var h := s.hub;
    var i := if h.phase.HubIdle? then 0 else h.phase.next;
    if h.phase.HubIdle? {
      var t := s.(hub := h.(phase := Gather(0, w.input(0, h.round))));
      assert HubEnters(w, s, t) && Steps(w, s, t);
    } else if i == w.spokes {
      var buf := h.phase.buf;
      var t := if h.phase.Gather? then s.(hub := h.(phase := Broadcast(0, buf)))
               else s.(hub := Hub(h.round + 1, HubIdle, h.results + [buf]));
      assert (HubTurns(w, s, t) || HubReturns(w, s, t)) && Steps(w, s, t);
    } else if h.phase.Gather? {
      var t := if s.up[i] != [] && s.up[i][0].Fits(w.calls[0][h.round]) then
          s.(hub := h.(phase := Gather(i + 1, w.combine(h.phase.buf, s.up[i][0].payload))), up := s.up[i := s.up[i][1..]])
        else s.(hub := h.(phase := HubFailed(i)));
      assert (HubReads(w, s, t) || HubSeesEnd(w, s, t)) && Steps(w, s, t);
    } else {
      var t := s.(hub := h.(phase := Broadcast(i + 1, h.phase.buf)),
                  down := s.down[i := s.down[i] + [Message(w.calls[0][h.round].kind, h.phase.buf)]]);
      assert HubWrites(w, s, t) && Steps(w, s, t);
    }
  }

  /** No deadlock, whatever the ranks call: some rank can step until each has returned from its
      last call or failed. */
  lemma SomeRankCanStep(w: World, run: seq<State>, k: nat)
    requires w.Valid() && Run(w, run) && k < |run|
    ensures CanStep(w, run[k]) || Ended(w, run[k])
  {
    RunKeepsInv(w, run, k);
    var s := run[k];
    if !HubDone(w, s) {
      if s.hub.phase.Gather? && s.hub.phase.next < w.spokes && s.up[s.hub.phase.next] == [] && !SpokeDone(w, s, s.hub.phase.next) {
        assert SpokeInv(w, s, s.hub.phase.next);
        SpokeCanStep(w, s, s.hub.phase.next);
      } else {
        HubCanStep(w, s);
      }
    } else if i: nat :| i < w.spokes && !SpokeDone(w, s, i) {
      SpokeCanStep(w, s, i);
    }
  }

  // ----- every run ends -----

  /** The steps the hub has left, at most; a round takes it 2 * spokes + 3. */
  ghost function HubWork(w: World, s: State): int
    requires w.Valid()
  {
    var done := match s.hub.phase
      case HubIdle => 0
      case Gather(i, _) => 1 + i
      case Broadcast(i, _) => 2 + w.spokes + i
      case HubFailed(_) => 2 * w.spokes + 3;
    (|w.calls[0]| - s.hub.round) * (2 * w.spokes + 3) - done
  }

  /** The steps the first n spokes have left, at most. */
  ghost function SpokeWork(w: World, s: State, n: nat): int
    requires w.Valid() && n <= w.spokes && n <= |s.spokes|
  {
    if n == 0 then 0 else SpokeWork(w, s, n - 1) + OneSpokeWork(w, s, n - 1)
  }

  ghost function OneSpokeWork(w: World, s: State, i: nat): int
    requires w.Valid() && i < w.spokes && i < |s.spokes|
  {
    2 * (|w.calls[i + 1]| - s.spokes[i].round) - (if s.spokes[i].phase.SpokeIdle? then 0 else if s.spokes[i].phase.Waiting? then 1 else 2)
  }

  ghost function Work(w: World, s: State): int
    requires w.Valid() && |s.spokes| == w.spokes
  {
    HubWork(w, s) + SpokeWork(w, s, w.spokes)
  }

  lemma HubWorkIsNatural(w: World, s: State)
    requires w.Valid() && Inv(w, s)
    ensures HubWork(w, s) >= 0
  {
    var left, each := |w.calls[0]| - s.hub.round, 2 * w.spokes + 3;
    assert left > 0 ==> (left - 1) * each >= 0 && left * each == (left - 1) * each + each;
  }

  lemma {:induction false} SpokeWorkIsNatural(w: World, s: State, n: nat)
    requires w.Valid() && Inv(w, s) && n <= w.spokes
    ensures SpokeWork(w, s, n) >= 0
    decreases n
  {
    if n > 0 {
      SpokeWorkIsNatural(w, s, n - 1);
      assert SpokeInv(w, s, n - 1);
    }
  }

  lemma {:induction false} SpokeWorkChanges(w: World, s: State, t: State, i: nat, n: nat)
    requires w.Valid() && n <= w.spokes == |s.spokes| == |t.spokes| && i < w.spokes
    requires forall j :: 0 <= j < w.spokes && j != i ==> t.spokes[j] == s.spokes[j]
    ensures SpokeWork(w, t, n) - SpokeWork(w, s, n) == if i < n then OneSpokeWork(w, t, i) - OneSpokeWork(w, s, i) else 0
    decreases n
  {
    if n > 0 {
      SpokeWorkChanges(w, s, t, i, n - 1);
    }
  }

  lemma {:induction false} SpokeWorkStays(w: World, s: State, t: State, n: nat)
    requires w.Valid() && n <= w.spokes == |s.spokes| && t.spokes == s.spokes
    ensures SpokeWork(w, t, n) == SpokeWork(w, s, n)
    decreases n
  {
    if n > 0 {
      SpokeWorkStays(w, s, t, n - 1);
    }
  }

  lemma StepTakesWork(w: World, s: State, t: State)
    requires w.Valid() && Inv(w, s) && Steps(w, s, t)
    ensures |t.spokes| == w.spokes && Work(w, t) < Work(w, s)
  {
    assert |s.spokes| == w.spokes;
    if HubSteps(w, s, t) {
      HubTakesWork(w, s, t);
      hide *;
      SpokeWorkStays(w, s, t, w.spokes);
    } else {
      var i := SpokeTakesWork(w, s, t);
      hide Inv, World.Valid, Steps, HubSteps, OneSpokeWork;
      SpokeWorkChanges(w, s, t, i, w.spokes);
    }
  }

  lemma SpokeTakesWork(w: World, s: State, t: State) returns (i: nat)
    requires w.Valid() && |s.spokes| == w.spokes && Steps(w, s, t) && !HubSteps(w, s, t)
    ensures t.hub == s.hub && |t.spokes| == w.spokes && i < w.spokes
    ensures OneSpokeWork(w, t, i) < OneSpokeWork(w, s, i) && forall j :: 0 <= j < w.spokes && j != i ==> t.spokes[j] == s.spokes[j]
  {
    hide World.Valid, HubSteps;
    if x: nat :| SpokeEnters(w, s, t, x) {
      i := x;
    } else if x: nat :| SpokeSeesEnd(w, s, t, x) {
      i := x;
    } else {
      i :| SpokeReturns(w, s, t, i);
    }
  }

  lemma HubTakesWork(w: World, s: State, t: State)
    requires w.Valid() && Inv(w, s) && HubSteps(w, s, t)
    ensures HubWork(w, t) < HubWork(w, s) && t.spokes == s.spokes
  {
    var left, each := |w.calls[0]| - s.hub.round, 2 * w.spokes + 3;
    assert (left - 1) * each == left * each - each;
  }

  lemma {:induction false} RunTakesWork(w: World, run: seq<State>, k: nat)
    requires w.Valid() && Run(w, run) && k < |run|
    ensures |run[k].spokes| == |run[0].spokes| == w.spokes && Work(w, run[k]) + k <= Work(w, run[0])
    decreases k
  {
    RunKeepsInv(w, run, k);
    if k > 0 {
      RunKeepsInv(w, run, k - 1);
      RunTakesWork(w, run, k - 1);
      StepTakesWork(w, run[k - 1], run[k]);
    }
  }

  /** Every run is finite.  When it cannot go on, exactly those ranks have failed that have a call
      in a round in which the ranks' calls differ; every other rank has returned from all its
      calls, with the same left folds. */
  lemma RunsFinish(w: World, run: seq<State>, rank: nat)
    requires w.Valid() && Run(w, run) && rank <= w.spokes
    ensures |run[0].spokes| == w.spokes && |run| <= Work(w, run[0]) + 1
    ensures var s := run[|run| - 1]; |s.spokes| == w.spokes
    ensures !CanStep(w, run[|run| - 1]) ==>
              var s := run[|run| - 1];
              && Ended(w, s) && (Failed(s, rank) <==> exists k: nat :: k < |w.calls[rank]| && !AllSame(w, k))
              && (!Failed(s, rank) ==> |ResultsOf(s, rank)| == |w.calls[rank]| && ResultsAreTotals(w, ResultsOf(s, rank)))
  {
    var k := |run| - 1;
    RunKeepsInv(w, run, k);
    RunTakesWork(w, run, k);
    HubWorkIsNatural(w, run[k]);
    SpokeWorkIsNatural(w, run[k], w.spokes);
    SomeRankCanStep(w, run, k);
    if !CanStep(w, run[k]) {
      EndsRight(w, run, rank);
    }
  }

  ghost predicate ResultsAreTotals(w: World, results: seq<seq<byte>>) {
    forall k: nat :: k < |results| ==> results[k] == w.Total(k, w.spokes)
  }

  lemma EndsRight(w: World, run: seq<State>, rank: nat)
    requires w.Valid() && Run(w, run) && rank <= w.spokes && Ended(w, run[|run| - 1])
    ensures var s := run[|run| - 1];
            && (Failed(s, rank) <==> exists k: nat :: k < |w.calls[rank]| && !AllSame(w, k))
            && |ResultsOf(s, rank)| == Returned(s, rank) && ResultsAreTotals(w, ResultsOf(s, rank))
            && (!Failed(s, rank) ==> Returned(s, rank) == |w.calls[rank]|)
  {
    var k, s := |run| - 1, run[|run| - 1];
    FailureMeansMismatch(w, run, k, rank);
    RunKeepsInv(w, run, k);
    if rank > 0 {
      assert SpokeInv(w, s, rank - 1) && SpokeDone(w, s, rank - 1);
    }
    if !Failed(s, rank) {
      forall round: nat | round < |w.calls[rank]| ensures AllSame(w, round) {
        forall i: nat | i < w.spokes ensures SameCall(w, i, round) {
          RoundsNeverMix(w, run, k, rank, round, i + 1);
        }
        RoundsNeverMix(w, run, k, rank, round, 0);
      }
    } else {
      assert Returned(s, rank) < |w.calls[rank]|;
    }
    hide Inv, Run;
    RoundsAgree(w, run, k, rank, 0);
    forall round: nat | round < |ResultsOf(s, rank)| ensures ResultsOf(s, rank)[round] == w.Total(round, w.spokes) {
      RoundsAgree(w, run, k, rank, round);
    }
  }
}
