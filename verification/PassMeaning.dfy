/** What each kind of change to the graph carries over: evaluations and what the outputs hand out. */
module PassMeaning {
  import opened GraphModel
  import opened DeadNodes
  import opened ViewChains
  import opened Pruning
  import opened ViewMeaning
  import opened CopyElimination

  /** Evaluation env of s carries over to t: extended to env', with every output as it was, and
      with nothing given that was not given before. */
  ghost predicate Carries<T(!new)>(s: Snapshot, t: Snapshot, outputs: seq<NodeId>, m: Meaning<T>, env: Env<T>, env': Env<T>) {
    && Good(t) && Marks(t.graph, outputs) && Solves(t, m, env')
    && |s.values| <= |t.values| && (forall v: ValueId :: v < |s.values| ==> env'(v) == env(v))
    && (forall n :: n in outputs ==> OutputValue(t, env', n) == OutputValue(s, env, n))
    && (forall v: ValueId :: Given(t.graph, v) ==> Given(s.graph, v))
  }

  lemma CarriesOn<T(!new)>(s: Snapshot, t: Snapshot, u: Snapshot, outputs: seq<NodeId>, m: Meaning<T>,
                           env: Env<T>, env': Env<T>, env'': Env<T>)
    requires Carries(s, t, outputs, m, env, env') && Carries(t, u, outputs, m, env', env'')
    ensures Carries(s, u, outputs, m, env, env'')
  {
    hide Good, Marks, Solves, Given;
  }

  // ----- deletion -----

  lemma PruningCarries<T(!new)>(s: Snapshot, t: Snapshot, outputs: seq<NodeId>, m: Meaning<T>, env: Env<T>)
    requires Good(s) && Marks(s.graph, outputs) && Prunes(s, t, outputs) && Solves(s, m, env)
    ensures Carries(s, t, outputs, m, env, env)
  {
    PruningKeepsGood(s, t, outputs);
    PruningKeepsMarks(s.graph, outputs, t.graph);
    hide Good, MarkersPlain, NodeHolds;
    forall n: NodeId | t.graph.Computes(n) ensures NodeHolds(t, m, env, t.graph.nodes[n]) {
      StaysLive(s.graph, outputs, t.graph, n);
      SameMeaning(s, t, m, env, s.graph.nodes[n], t.graph.nodes[n]);
    }
    forall n | n in outputs ensures OutputValue(t, env, n) == OutputValue(s, env, n) {
      StaysLive(s.graph, outputs, t.graph, n);
    }
    forall v: ValueId | Given(t.graph, v) ensures Given(s.graph, v) {
      if v !in t.graph.initializers {
        var n: NodeId :| t.graph.Defines(n, v) && t.graph.nodes[n].IsDummy();
        StaysLive(s.graph, outputs, t.graph, n);
        assert s.graph.Defines(n, v);
      }
    }
  }

  // ----- chains bundled -----

  lemma {:induction false} StepsKeepMarks(trace: seq<Snapshot>, outputs: seq<NodeId>)
    requires Steps(trace) && Good(trace[0]) && Marks(trace[0].graph, outputs)
    ensures Marks(trace[|trace| - 1].graph, outputs)
    decreases |trace|
  {
    hide Good, Marks, Bundles, Bundled;
    var k := |trace| - 1;
    if k > 0 {
      assert Step(trace[k - 1], trace[k]);
      StepsKeepGood(trace[..k]);
      StepsKeepMarks(trace[..k], outputs);
      var b: Bundle :| Bundles(trace[k - 1], b) && trace[k] == Bundled(trace[k - 1], b);
      BundleInBounds(trace[k - 1], b);
      StepKeepsMarks(trace[k - 1], b, outputs);
    }
  }

  lemma StepAddsNothingGiven(s: Snapshot, b: Bundle, v: ValueId)
    requires Good(s) && Bundles(s, b) && Given(Bundled(s, b).graph, v)
    ensures Given(s.graph, v)
  {
    var t := Bundled(s, b).graph;
    BundleInBounds(s, b);
    NewNodeStays(s, b);
    assert !t.nodes[|s.graph.nodes|].IsDummy();
    hide Bundled, Bundles, Good;
    if v !in t.initializers {
      var n: NodeId :| t.Defines(n, v) && t.nodes[n].IsDummy();
      if n < |s.graph.nodes| {
        BundledNode(s, b, n);
        DummyStays(s.graph.nodes[n], t.nodes[n]);
        assert s.graph.Defines(n, v);
      }
    } else {
      InitializersStay(s, b);
    }
  }

  lemma DummyStays(node: Node, node': Node)
    requires !node.op.Output? ==> node'.op == node.op
    ensures node'.IsDummy() ==> node.IsDummy()
  {
  }

  lemma InitializersStay(s: Snapshot, b: Bundle)
    ensures Bundled(s, b).graph.initializers == s.graph.initializers
  {
  }

  lemma {:induction false} StepsAddNothingGiven(trace: seq<Snapshot>, v: ValueId)
    requires Steps(trace) && Good(trace[0]) && Given(trace[|trace| - 1].graph, v)
    ensures Given(trace[0].graph, v)
    decreases |trace|
  {
    hide Good, Given, Bundles, Bundled;
    var k := |trace| - 1;
    if k > 0 {
      assert Step(trace[k - 1], trace[k]);
      StepsKeepGood(trace[..k]);
      var b: Bundle :| Bundles(trace[k - 1], b) && trace[k] == Bundled(trace[k - 1], b);
      StepAddsNothingGiven(trace[k - 1], b, v);
      StepsAddNothingGiven(trace[..k], v);
    }
  }

  lemma RewritingCarries<T(!new)>(s: Snapshot, t: Snapshot, outputs: seq<NodeId>, m: Meaning<T>, env: Env<T>) returns (env': Env<T>)
    requires Good(s) && Marks(s.graph, outputs) && Rewritten(s, t) && Solves(s, m, env)
    ensures Carries(s, t, outputs, m, env, env')
  {
    var trace: seq<Snapshot> :| Steps(trace) && trace[0] == s && trace[|trace| - 1] == t;
    env' := StepsForward(trace, m, env);
    StepsKeepGood(trace);
    StepsKeepMarks(trace, outputs);
    hide Steps, Given;
    forall n | n in outputs ensures OutputValue(t, env', n) == OutputValue(s, env, n) {
      StepsBack(trace, m, env', n);
      SameOutput(s, env, env', n);
    }
    forall v: ValueId | Given(t.graph, v) ensures Given(s.graph, v) {
      StepsAddNothingGiven(trace, v);
    }
  }

  lemma SameOutput<T>(s: Snapshot, a: Env<T>, b: Env<T>, n: NodeId)
    requires Good(s) && forall v: ValueId :: v < |s.values| ==> b(v) == a(v)
    ensures OutputValue(s, b, n) == OutputValue(s, a, n)
  {
    if OutputValue(s, a, n).Some? {
      assert s.graph.ReadsAt(n, 0, s.graph.nodes[n].inputs[0].value);
    }
  }

  // ----- copies taken out -----

  lemma SkipKeepsMarks(s: Snapshot, n: NodeId, outputs: seq<NodeId>)
    requires IsViewAt(s.graph, n) && Marks(s.graph, outputs)
    ensures Marks(Skipped(s, n).graph, outputs)
  {
    var t := Skipped(s, n).graph;
    hide Skipped;
    SkippedShape(s, n);
    forall x: NodeId | t.Live(x) && t.nodes[x].IsDummy()
      ensures if t.nodes[x].op.Output? then x in outputs else forall i :: 0 <= i < |t.nodes[x].inputs| ==> t.nodes[x].inputs[i].None?
    {
      SkippedNode(s, n, x);
      assert s.graph.Live(x) && s.graph.nodes[x].IsDummy();
    }
    forall x | x in outputs ensures t.Live(x) && t.nodes[x].op.Output? {
      SkippedNode(s, n, x);
    }
  }

  lemma SkippedShape(s: Snapshot, n: NodeId)
    requires IsViewAt(s.graph, n)
    ensures |Skipped(s, n).graph.nodes| == |s.graph.nodes| && Skipped(s, n).graph.initializers == s.graph.initializers
    ensures Skipped(s, n).values == s.values
  {
  }

  /** Taking out a plain copy changes no value at all. */
  lemma SkipCarries<T(!new)>(s: Snapshot, n: NodeId, outputs: seq<NodeId>, m: Meaning<T>, env: Env<T>)
    requires Good(s) && Marks(s.graph, outputs) && Skips(s, n) && s.graph.nodes[n].op.ops == [] && Solves(s, m, env)
    ensures Carries(s, Skipped(s, n), outputs, m, env, env)
  {
    assert s.graph.Computes(n) && NodeHolds(s, m, env, s.graph.nodes[n]);
    SkipKeepsGood(s, n);
    SkipKeepsMarks(s, n, outputs);
    SkipKeepsSolutions(s, n, m, env);
    SkippedShape(s, n);
    var t := Skipped(s, n);
    hide Skipped, Good, Marks, Solves;
    forall k | k in outputs ensures OutputValue(t, env, k) == OutputValue(s, env, k) {
      if k < |s.graph.nodes| {
        SkippedNode(s, n, k);
        assert s.graph.nodes[k].inputs != [] ==>
            t.graph.nodes[k].inputs[0] == if s.graph.ReadsAt(k, 0, s.graph.nodes[n].outputs[0]) then s.graph.nodes[n].inputs[0]
                                          else s.graph.nodes[k].inputs[0];
      }
    }
    forall v: ValueId | Given(t.graph, v) ensures Given(s.graph, v) {
      if v !in t.graph.initializers {
        var x: NodeId :| t.graph.Defines(x, v) && t.graph.nodes[x].IsDummy();
        SkippedNode(s, n, x);
        assert s.graph.Defines(x, v) && s.graph.nodes[x].IsDummy();
      }
    }
  }

  /** The nodes listed are contiguous nodes without views. */
  ghost predicate ListsPlain(g: Graph, ids: seq<NodeId>) {
    forall k :: 0 <= k < |ids| ==> g.Live(ids[k]) && g.nodes[ids[k]].op.Contiguous? && g.nodes[ids[k]].op.ops == []
  }

  lemma SkipKeepsPlain(s: Snapshot, n: NodeId, ids: seq<NodeId>)
    requires IsViewAt(s.graph, n) && ListsPlain(s.graph, ids)
    ensures ListsPlain(Skipped(s, n).graph, ids)
  {
    forall k | 0 <= k < |ids|
      ensures Skipped(s, n).graph.Live(ids[k]) && Skipped(s, n).graph.nodes[ids[k]].op == s.graph.nodes[ids[k]].op
    {
      SkippedNode(s, n, ids[k]);
    }
  }

  lemma {:induction false} SkippingCarries<T(!new)>(trace: seq<Snapshot>, ids: seq<NodeId>, all: seq<NodeId>, outputs: seq<NodeId>,
                                                    m: Meaning<T>, env: Env<T>)
    requires SkipsInOrder(trace, ids) && ids <= all && Good(trace[0]) && Marks(trace[0].graph, outputs)
    requires ListsPlain(trace[0].graph, all) && Solves(trace[0], m, env)
    ensures Carries(trace[0], trace[|ids|], outputs, m, env, env) && ListsPlain(trace[|ids|].graph, all)
    decreases |ids|
  {
    var k := |ids| - 1;
    if k >= 0 {
      assert Skips(trace[k], ids[k]) && trace[k + 1] == Skipped(trace[k], ids[k]);
      assert |trace| == |ids| + 1 && SkipsInOrder(trace[..k + 1], ids[..k]);
      hide SkipsInOrder, Good, Marks, Solves, Skipped, Given;
      SkippingCarries(trace[..k + 1], ids[..k], all, outputs, m, env);
      assert all[k] == ids[k];
      SkipCarries(trace[k], ids[k], outputs, m, env);
      SkipKeepsPlain(trace[k], ids[k], all);
      CarriesOn(trace[0], trace[k], trace[k + 1], outputs, m, env, env, env);
    }
  }

  lemma SkipKeepsCopies(s: Snapshot, n: NodeId)
    requires IsViewAt(s.graph, n) && PlainCopies(s.graph)
    ensures PlainCopies(Skipped(s, n).graph)
  {
    var t := Skipped(s, n).graph;
    forall x: NodeId | t.Live(x) && t.nodes[x].op.Contiguous? ensures t.nodes[x].op.ops == [] {
      SkippedNode(s, n, x);
      assert s.graph.Live(x);
    }
  }
}
