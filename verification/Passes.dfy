/** The pass manager: every pass is followed by the deletion of what the outputs do not need. */
module Passes {
  import opened GraphModel
  import opened TopologicalOrder
  import opened UseDefIndex
  import opened GraphIndex
  import opened DeadNodes
  import opened ViewChains
  import opened Pruning
  import opened GraphRewriting
  import opened ViewMeaning
  import opened ViewFolding
  import opened CopyElimination
  import opened PassMeaning

  /** The passes over view nodes; `contiguous` holds the values stored contiguously. */
  datatype Pass = Conversion | Elimination(contiguous: set<ValueId>) | Folding(forward: bool)

  ghost predicate Runs(s: Snapshot, pass: Pass, t: Snapshot) {
    match pass
    case Conversion => Rewritten(s, t) && OnlyViewsReadViews(t.graph) && (PlainCopies(s.graph) ==> PlainCopies(t.graph))
    case Elimination(contiguous) => exists ids: seq<NodeId>, trace: seq<Snapshot> :: Eliminates(s, contiguous, ids, trace, t)
    case Folding(forward) =>
      && Rewritten(s, t) && (!forward ==> t == s)
      && exists ids: seq<NodeId>, trace: seq<Snapshot> :: FoldsChains(s, forward, ids, trace, t)
  }

  ghost predicate FoldsChains(s: Snapshot, forward: bool, ids: seq<NodeId>, trace: seq<Snapshot>, t: Snapshot) {
    && NoRepeats(ids) && ProducersFirst(s.graph, ids) && (forall n: NodeId :: n in ids <==> Starts(s.graph, n))
    && FoldsInOrder(trace, ids, forward) && trace[0] == s && trace[|ids|] == t
  }

  /** One pass and the deletion after it. */
  ghost predicate Passed(s: Snapshot, pass: Pass, t: Snapshot, outputs: seq<NodeId>) {
    exists mid: Snapshot :: Runs(s, pass, mid) && Prunes(mid, t, outputs)
  }

  ghost predicate PassesInOrder(trace: seq<Snapshot>, passes: seq<Pass>, outputs: seq<NodeId>) {
    |trace| == |passes| + 1 && forall k :: 0 <= k < |passes| ==> Passed(trace[k], passes[k], trace[k + 1], outputs)
  }

  method RunPass(op: SimpleGraphOp, pass: Pass)
    requires Ready(op)
    modifies op
    ensures Ready(op) && Runs(old(op.State()), pass, op.State())
    ensures pass.Conversion? ==> Rewritten(old(op.State()), op.State()) && OnlyViewsReadViews(op.graph)
    ensures pass.Elimination? ==> exists ids: seq<NodeId>, trace: seq<Snapshot> :: Eliminates(old(op.State()), pass.contiguous, ids, trace, op.State())
    ensures pass.Folding? ==> exists ids: seq<NodeId>, trace: seq<Snapshot> :: FoldsChains(old(op.State()), pass.forward, ids, trace, op.State())
  {
    ghost var start := op.State();
    hide Rewritten, OnlyViewsReadViews, PlainCopies, Starts, Chosen, SkipsInOrder, FoldsInOrder, NoRepeats, Good, Tracks, ProducersFirst, ConsumersFirst, ConvertsInOrder;
    match pass {
      case Conversion =>
        ghost var ids, trace := ReinterpretConversion(op);
      case Elimination(contiguous) =>
        ghost var ids, trace := ContiguousElimination(op, contiguous);
        assert Eliminates(start, contiguous, ids, trace, op.State());
      case Folding(forward) =>
        ghost var ids, trace := ContiguousFolding(op, forward);
        assert FoldsChains(start, forward, ids, trace, op.State());
    }
  }

  /** What a run of passes needs, and leaves for the next. */
  ghost predicate Prepared(op: SimpleGraphOp, outputs: seq<NodeId>)
    reads op
  {
    Ready(op) && Marks(op.graph, outputs)
  }

  /** One pass and the deletion after it. */
  method RunAndDelete(op: SimpleGraphOp, pass: Pass, outputs: seq<NodeId>)
    requires Prepared(op, outputs)
    modifies op
    ensures Prepared(op, outputs) && Passed(old(op.State()), pass, op.State(), outputs)
  {
    ghost var start := op.State();
    RunPass(op, pass);
    RunKeepsMarks(start, pass, op.State(), outputs);
    hide Runs, Good, Prunes, Sound;
    op.UpdateDeletedNodes(outputs);
  }

  /** Runs the passes one after another, with a deletion after each. */
  method RunPasses(op: SimpleGraphOp, passes: seq<Pass>, outputs: seq<NodeId>) returns (ghost trace: seq<Snapshot>)
    requires Prepared(op, outputs)
    modifies op
    ensures Prepared(op, outputs)
    ensures PassesInOrder(trace, passes, outputs) && trace[0] == old(op.State()) && trace[|passes|] == op.State()
  {
    trace := [op.State()];
    ghost var start := op.State();
    NothingPassed(start, outputs);
    hide Passed, Prepared, PassesInOrder;
    for k := 0 to |passes|
      invariant Prepared(op, outputs)
      invariant |trace| == k + 1 && trace[0] == start && trace[k] == op.State() && PassesInOrder(trace, passes[..k], outputs)
    {
      RunAndDelete(op, passes[k], outputs);
      OneMorePassed(trace, passes, k, op.State(), outputs);
      trace := trace + [op.State()];
    }
    assert passes[..|passes|] == passes;
  }

  lemma NothingPassed(s: Snapshot, outputs: seq<NodeId>)
    ensures PassesInOrder([s], [], outputs)
  {
  }

  lemma OneMorePassed(trace: seq<Snapshot>, passes: seq<Pass>, k: nat, t: Snapshot, outputs: seq<NodeId>)
    requires k < |passes| && PassesInOrder(trace, passes[..k], outputs) && Passed(trace[k], passes[k], t, outputs)
    ensures PassesInOrder(trace + [t], passes[..k + 1], outputs)
  {
    hide Passed;
    var more := trace + [t];
    forall j | 0 <= j < k + 1 ensures Passed(more[j], passes[..k + 1][j], more[j + 1], outputs) {
      if j < k {
        assert Passed(trace[j], passes[..k][j], trace[j + 1], outputs);
      }
    }
  }

  lemma RunKeepsMarks(s: Snapshot, pass: Pass, t: Snapshot, outputs: seq<NodeId>)
    requires Good(s) && Marks(s.graph, outputs) && Runs(s, pass, t)
    ensures Marks(t.graph, outputs)
  {
    hide Good, Marks, FoldsChains, OnlyViewsReadViews, PlainCopies, Skipped, Skips;
    if pass.Elimination? {
      var ids: seq<NodeId>, trace: seq<Snapshot> :| Eliminates(s, pass.contiguous, ids, trace, t);
      assert |trace| == |ids| + 1;
      hide Chosen, SkipsInOrder;
      for k := 0 to |ids|
        invariant Marks(trace[k].graph, outputs)
      {
        SkipAt(trace, ids, k);
        SkipKeepsMarks(trace[k], ids[k], outputs);
      }
    } else {
      var trace: seq<Snapshot> :| Steps(trace) && trace[0] == s && trace[|trace| - 1] == t;
      StepsKeepMarks(trace, outputs);
    }
  }

  lemma SkipAt(trace: seq<Snapshot>, ids: seq<NodeId>, k: nat)
    requires SkipsInOrder(trace, ids) && k < |ids|
    ensures IsViewAt(trace[k].graph, ids[k]) && Skips(trace[k], ids[k]) && trace[k + 1] == Skipped(trace[k], ids[k])
  {
  }

  // ----- outputs -----

  /** The contiguous nodes that an elimination takes out have no views. */
  ghost predicate ChosenPlain(s: Snapshot, contiguous: set<ValueId>) {
    forall n: NodeId :: Chosen(s, contiguous, n) ==> s.graph.nodes[n].op.ops == []
  }

  ghost predicate EliminatesPlain(trace: seq<Snapshot>, passes: seq<Pass>)
    requires |trace| == |passes| + 1
  {
    forall k :: 0 <= k < |passes| && passes[k].Elimination? ==> ChosenPlain(trace[k], passes[k].contiguous)
  }

  lemma ChosenAreListed(s: Snapshot, contiguous: set<ValueId>, ids: seq<NodeId>)
    requires ChosenPlain(s, contiguous) && forall n: NodeId :: n in ids <==> Chosen(s, contiguous, n)
    ensures ListsPlain(s.graph, ids)
  {
    forall k | 0 <= k < |ids| ensures Chosen(s, contiguous, ids[k]) {
      assert ids[k] in ids;
    }
  }

  lemma PassCarries<T(!new)>(s: Snapshot, pass: Pass, t: Snapshot, outputs: seq<NodeId>, m: Meaning<T>, env: Env<T>)
    returns (env': Env<T>)
    requires Good(s) && Marks(s.graph, outputs) && Passed(s, pass, t, outputs) && Solves(s, m, env)
    requires pass.Elimination? ==> ChosenPlain(s, pass.contiguous)
    ensures Carries(s, t, outputs, m, env, env')
  {
    hide Good, Marks, Solves, FoldsChains, OnlyViewsReadViews, PlainCopies, Rewritten, Prunes, SkipsInOrder, Given;
    hide Chosen, ChosenPlain, ListsPlain;
    var mid: Snapshot :| Runs(s, pass, mid) && Prunes(mid, t, outputs);
    if pass.Elimination? {
      var ids: seq<NodeId>, trace: seq<Snapshot> :| Eliminates(s, pass.contiguous, ids, trace, mid);
      ChosenAreListed(s, pass.contiguous, ids);
      SkippingCarries(trace, ids, ids, outputs, m, env);
      env' := env;
    } else {
      env' := RewritingCarries(s, mid, outputs, m, env);
    }
    PruningCarries(mid, t, outputs, m, env');
    CarriesOn(s, mid, t, outputs, m, env, env', env');
  }

  /** An evaluation extends through any number of passes, and the outputs keep their values. */
  lemma {:induction false} PassesCarry<T(!new)>(trace: seq<Snapshot>, passes: seq<Pass>, outputs: seq<NodeId>, m: Meaning<T>, env: Env<T>)
    returns (env': Env<T>)
    requires PassesInOrder(trace, passes, outputs) && Good(trace[0]) && Marks(trace[0].graph, outputs)
    requires Solves(trace[0], m, env) && EliminatesPlain(trace, passes)
    ensures Carries(trace[0], trace[|passes|], outputs, m, env, env')
    decreases |passes|
  {
    hide Good, Marks, Solves, Passed, ChosenPlain, Given;
    env' := env;
    var k := |passes| - 1;
    if k >= 0 {
      assert forall j :: 0 <= j < k ==> passes[..k][j] == passes[j] && trace[..k + 1][j + 1] == trace[j + 1];
      var before := PassesCarry(trace[..k + 1], passes[..k], outputs, m, env);
      env' := PassCarries(trace[k], passes[k], trace[k + 1], outputs, m, before);
      CarriesOn(trace[0], trace[k], trace[k + 1], outputs, m, env, before, env');
    } else {
      assert Carries(trace[0], trace[0], outputs, m, env, env);
    }
  }

  /** Any number of passes, each with its deletion, leave what every output hands out as it was:
      whatever the operators mean, and however the two graphs are evaluated from the same inputs
      and initial tensors. */
  lemma PassesKeepOutputs<T(!new)>(trace: seq<Snapshot>, passes: seq<Pass>, outputs: seq<NodeId>, m: Meaning<T>,
                                   before: Env<T>, after: Env<T>, n: NodeId)
    requires PassesInOrder(trace, passes, outputs) && Good(trace[0]) && Marks(trace[0].graph, outputs)
    requires EliminatesPlain(trace, passes) && n in outputs
    requires Solves(trace[0], m, before) && Solves(trace[|passes|], m, after) && SameGiven(trace[0].graph, before, after)
    ensures OutputValue(trace[|passes|], after, n) == OutputValue(trace[0], before, n)
  {
    var s, t := trace[0], trace[|passes|];
    var env := PassesCarry(trace, passes, outputs, m, before);
    hide PassesInOrder, EliminatesPlain, Marks, Solves, PlainCopies;
    forall v: ValueId | Given(t.graph, v) ensures env(v) == after(v) {
      GivenInBounds(s, v);
    }
    hide Given, Good;
    OutputsAgree(t, m, env, after, n);
  }

  lemma GivenInBounds(s: Snapshot, v: ValueId)
    requires Good(s) && Given(s.graph, v)
    ensures v < |s.values|
  {
    if v !in s.graph.initializers {
      var n: NodeId :| s.graph.Defines(n, v) && s.graph.nodes[n].IsDummy();
      var j: nat :| j < |s.graph.nodes[n].outputs| && s.graph.nodes[n].outputs[j] == v;
      assert DefinesAt(s.graph, (n, j), v);
    }
  }

  // ----- reshapes and transposes -----

  ghost predicate NoViews(g: Graph) {
    forall n: NodeId :: g.Live(n) ==> !g.nodes[n].op.Reshape? && !g.nodes[n].op.Transpose?
  }

  /** Where reshapes and transposes are read by their kind alone, no output needs one. */
  lemma {:induction false} NoPathToView(g: Graph, outputs: seq<NodeId>, path: seq<NodeId>)
    requires PlainViews(g) && OnlyViewsReadViews(g) && Marks(g, outputs) && Path(g, outputs, path)
    ensures path[|path| - 1] < |g.nodes| && !IsReshapeOrTranspose(g.nodes[path[|path| - 1]])
    decreases |path|
  {
    var k := |path| - 1;
    if k > 0 {
      NoPathToView(g, outputs, path[..k]);
      assert FedBy(g, path[k], path[k - 1]);
      var i: nat :| FedAt(g, path[k], path[k - 1], i);
      assert g.ReadsAt(path[k - 1], i, g.nodes[path[k - 1]].inputs[i].value);
    }
  }

  /** The conversion and the deletion after it leave no reshape and no transpose. */
  lemma ConversionLeavesNoView(s: Snapshot, t: Snapshot, outputs: seq<NodeId>)
    requires Good(s) && Marks(s.graph, outputs) && Passed(s, Conversion, t, outputs)
    ensures NoViews(t.graph)
  {
    var mid: Snapshot :| Runs(s, Conversion, mid) && Prunes(mid, t, outputs);
    RunKeepsMarks(s, Conversion, mid, outputs);
    RewritingKeepsGood(s, mid);
    forall n: NodeId | t.graph.Live(n) ensures !IsReshapeOrTranspose(t.graph.nodes[n]) {
      StaysLive(mid.graph, outputs, t.graph, n);
      if IsReshapeOrTranspose(t.graph.nodes[n]) {
        var path: seq<NodeId> :| Path(mid.graph, outputs, path) && path[|path| - 1] == n;
        NoPathToView(mid.graph, outputs, path);
      }
    }
  }

  lemma RewritingKeepsGood(s: Snapshot, t: Snapshot)
    requires Good(s) && Rewritten(s, t)
    ensures Good(t)
  {
    var trace: seq<Snapshot> :| Steps(trace) && trace[0] == s && trace[|trace| - 1] == t;
    StepsKeepGood(trace);
  }

  lemma PassAddsNoView(s: Snapshot, pass: Pass, t: Snapshot, outputs: seq<NodeId>)
    requires Good(s) && Passed(s, pass, t, outputs) && NoViews(s.graph)
    ensures NoViews(t.graph)
  {
    var mid: Snapshot :| Runs(s, pass, mid) && Prunes(mid, t, outputs);
    if pass.Elimination? {
      var ids: seq<NodeId>, trace: seq<Snapshot> :| Eliminates(s, pass.contiguous, ids, trace, mid);
      assert |trace| == |ids| + 1;
      hide Chosen, Skipped, Skips, SkipsInOrder;
      for k := 0 to |ids|
        invariant NoViews(trace[k].graph)
      {
        SkipAt(trace, ids, k);
        SkipAddsNoView(trace[k], ids[k]);
      }
    } else {
      forall n: NodeId | mid.graph.Live(n) ensures !IsReshapeOrTranspose(mid.graph.nodes[n]) {
        if IsReshapeOrTranspose(mid.graph.nodes[n]) {
          RewritingAddsNoView(s, mid, n);
        }
      }
    }
    assert NoViews(mid.graph);
    hide Runs, Good;
    forall n: NodeId | t.graph.Live(n) ensures !IsReshapeOrTranspose(t.graph.nodes[n]) {
      StaysLive(mid.graph, outputs, t.graph, n);
    }
  }

  lemma SkipAddsNoView(s: Snapshot, n: NodeId)
    requires Skips(s, n) && NoViews(s.graph)
    ensures NoViews(Skipped(s, n).graph)
  {
    forall x: NodeId | Skipped(s, n).graph.Live(x) ensures !IsReshapeOrTranspose(Skipped(s, n).graph.nodes[x]) {
      SkippedNode(s, n, x);
      assert s.graph.Live(x);
    }
  }

  // ----- the last passes -----

  lemma PassKeepsCopies(s: Snapshot, pass: Pass, t: Snapshot, outputs: seq<NodeId>)
    requires Passed(s, pass, t, outputs) && PlainCopies(s.graph) && pass != Folding(true)
    ensures PlainCopies(t.graph)
  {
    var mid: Snapshot :| Runs(s, pass, mid) && Prunes(mid, t, outputs);
    if pass.Elimination? {
      var ids: seq<NodeId>, trace: seq<Snapshot> :| Eliminates(s, pass.contiguous, ids, trace, mid);
      assert |trace| == |ids| + 1;
      hide Chosen, Skipped, Skips, SkipsInOrder;
      for k := 0 to |ids|
        invariant PlainCopies(trace[k].graph)
      {
        SkipAt(trace, ids, k);
        SkipKeepsCopies(trace[k], ids[k]);
      }
    }
    assert PlainCopies(mid.graph);
    hide Runs;
    forall n: NodeId | t.graph.Live(n) && t.graph.nodes[n].op.Contiguous? ensures t.graph.nodes[n].op.ops == [] {
      StaysLive(mid.graph, outputs, t.graph, n);
    }
  }

  /** Chains are folded only after the last copies are taken out. */
  predicate FoldsLate(passes: seq<Pass>) {
    forall j, k :: 0 <= j < k < |passes| && passes[j] == Folding(true) ==> !passes[k].Elimination?
  }

  lemma LateFoldingEliminatesPlain(trace: seq<Snapshot>, passes: seq<Pass>, outputs: seq<NodeId>)
    requires PassesInOrder(trace, passes, outputs) && FoldsLate(passes) && PlainCopies(trace[0].graph)
    ensures EliminatesPlain(trace, passes)
  {
    hide Passed, PlainCopies;
    forall k | 0 <= k < |passes| && passes[k].Elimination? ensures ChosenPlain(trace[k], passes[k].contiguous) {
      for j := 0 to k
        invariant PlainCopies(trace[j].graph)
      {
        PassKeepsCopies(trace[j], passes[j], trace[j + 1], outputs);
      }
      PlainIsChosenPlain(trace[k], passes[k].contiguous);
    }
  }

  lemma PlainIsChosenPlain(s: Snapshot, contiguous: set<ValueId>)
    requires PlainCopies(s.graph)
    ensures ChosenPlain(s, contiguous)
  {
  }

  /** The order of the last passes; copies are taken out on one target only. */
  function EpilogPasses(cuda: bool, contiguous: set<ValueId>): (passes: seq<Pass>)
    ensures FoldsLate(passes)
  {
    if cuda then [Conversion, Elimination(contiguous), Folding(true)] else [Conversion, Folding(true)]
  }

  /** The last passes leave no reshape and no transpose. */
  method Epilog(op: SimpleGraphOp, outputs: seq<NodeId>, cuda: bool, contiguous: set<ValueId>) returns (ghost trace: seq<Snapshot>)
    requires Prepared(op, outputs)
    modifies op
    ensures Prepared(op, outputs) && NoViews(op.graph)
    ensures PassesInOrder(trace, EpilogPasses(cuda, contiguous), outputs)
    ensures trace[0] == old(op.State()) && trace[|trace| - 1] == op.State()
    ensures |trace| == (if cuda then 4 else 3) && Passed(trace[0], Conversion, trace[1], outputs)
    ensures cuda ==> Passed(trace[1], Elimination(contiguous), trace[2], outputs) && Passed(trace[2], Folding(true), trace[3], outputs)
    ensures !cuda ==> Passed(trace[1], Folding(true), trace[2], outputs)
  {
    hide Passed, PassesInOrder, EpilogPasses, FoldsLate, NoViews, Prunes, Good;
    var passes := EpilogPasses(cuda, contiguous);
    trace := RunPasses(op, passes, outputs);
    EpilogInTurn(trace, outputs, cuda, contiguous);
    EpilogLeavesNoView(trace, outputs, cuda, contiguous);
  }

  lemma EpilogInTurn(trace: seq<Snapshot>, outputs: seq<NodeId>, cuda: bool, contiguous: set<ValueId>)
    ensures |EpilogPasses(cuda, contiguous)| == if cuda then 3 else 2
    ensures PassesInOrder(trace, EpilogPasses(cuda, contiguous), outputs) ==>
              && |trace| == (if cuda then 4 else 3) && Passed(trace[0], Conversion, trace[1], outputs)
              && (cuda ==> Passed(trace[1], Elimination(contiguous), trace[2], outputs) && Passed(trace[2], Folding(true), trace[3], outputs))
              && (!cuda ==> Passed(trace[1], Folding(true), trace[2], outputs))
  {
    hide Passed;
    var passes := EpilogPasses(cuda, contiguous);
    assert passes[0] == Conversion && passes[1] == (if cuda then Elimination(contiguous) else Folding(true));
    assert cuda ==> passes[2] == Folding(true);
  }

  lemma PassKeepsGood(s: Snapshot, pass: Pass, t: Snapshot, outputs: seq<NodeId>)
    requires Good(s) && Marks(s.graph, outputs) && Passed(s, pass, t, outputs)
    ensures Good(t) && Marks(t.graph, outputs)
  {
    var mid: Snapshot :| Runs(s, pass, mid) && Prunes(mid, t, outputs);
    RunKeepsMarks(s, pass, mid, outputs);
    RunKeepsGood(s, pass, mid);
    PruningKeepsGood(mid, t, outputs);
    PruningKeepsMarks(mid.graph, outputs, t.graph);
  }

  lemma RunKeepsGood(s: Snapshot, pass: Pass, t: Snapshot)
    requires Good(s) && Runs(s, pass, t)
    ensures Good(t)
  {
    hide Good, FoldsChains, OnlyViewsReadViews, PlainCopies, Rewritten;
    if pass.Elimination? {
      var ids: seq<NodeId>, trace: seq<Snapshot> :| Eliminates(s, pass.contiguous, ids, trace, t);
      assert |trace| == |ids| + 1;
      hide Chosen, Skipped, Skips, SkipsInOrder;
      for k := 0 to |ids|
        invariant Good(trace[k])
      {
        SkipAt(trace, ids, k);
        SkipKeepsGood(trace[k], ids[k]);
      }
    } else {
      RewritingKeepsGood(s, t);
    }
  }

  lemma EpilogLeavesNoView(trace: seq<Snapshot>, outputs: seq<NodeId>, cuda: bool, contiguous: set<ValueId>)
    requires PassesInOrder(trace, EpilogPasses(cuda, contiguous), outputs) && Good(trace[0]) && Marks(trace[0].graph, outputs)
    ensures NoViews(trace[|trace| - 1].graph)
  {
    hide Passed, Good, Marks, NoViews;
    var passes := EpilogPasses(cuda, contiguous);
    ConversionLeavesNoView(trace[0], trace[1], outputs);
    PassKeepsGood(trace[0], passes[0], trace[1], outputs);
    PassAddsNoView(trace[1], passes[1], trace[2], outputs);
    if cuda {
      PassKeepsGood(trace[1], passes[1], trace[2], outputs);
      PassAddsNoView(trace[2], passes[2], trace[3], outputs);
    }
  }

  /** The last passes leave what every output hands out as it was; where copies are taken out, if
      contiguous nodes only copy when they begin. */
  lemma EpilogKeepsOutputs<T(!new)>(trace: seq<Snapshot>, outputs: seq<NodeId>, cuda: bool, contiguous: set<ValueId>,
                                    m: Meaning<T>, before: Env<T>, after: Env<T>, n: NodeId)
    requires PassesInOrder(trace, EpilogPasses(cuda, contiguous), outputs) && Good(trace[0]) && Marks(trace[0].graph, outputs)
    requires (cuda ==> PlainCopies(trace[0].graph)) && n in outputs
    requires Solves(trace[0], m, before) && Solves(trace[|trace| - 1], m, after) && SameGiven(trace[0].graph, before, after)
    ensures OutputValue(trace[|trace| - 1], after, n) == OutputValue(trace[0], before, n)
  {
    var passes := EpilogPasses(cuda, contiguous);
    if cuda {
      LateFoldingEliminatesPlain(trace, passes, outputs);
    }
    assert |trace| == |passes| + 1;
    hide PassesInOrder, Solves, SameGiven, Marks, Good;
    PassesKeepOutputs(trace, passes, outputs, m, before, after, n);
  }
}
