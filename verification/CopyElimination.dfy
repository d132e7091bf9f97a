/** The pass that takes out copies of contiguous tensors, and when it is right. */
module CopyElimination {
  import opened Options
  import opened GraphModel
  import opened UseDefIndex
  import opened GraphIndex
  import opened ViewChains
  import opened ViewMeaning
  import opened GraphRewriting
  import opened Evaluation
  import opened ViewFolding

  /** A contiguous node between values of the same dims. */
  ghost predicate Skips(s: Snapshot, n: NodeId) {
    && IsViewAt(s.graph, n) && s.graph.nodes[n].op.Contiguous?
    && Dims(s, s.graph.nodes[n].inputs[0].value) == Dims(s, s.graph.nodes[n].outputs[0])
  }

  /** Every reader of the node's output reads its input instead. */
  ghost function Skipped(s: Snapshot, n: NodeId): Snapshot
    requires IsViewAt(s.graph, n)
  {
    var node := s.graph.nodes[n];
    s.(graph := Rewired(s.graph, EveryReader(s.graph, node.outputs[0]), node.inputs[0].value))
  }

  lemma SkipInBounds(s: Snapshot, n: NodeId)
    requires Good(s) && IsViewAt(s.graph, n)
    ensures var v, u := s.graph.nodes[n].outputs[0], s.graph.nodes[n].inputs[0].value;
            v != u && v < |s.values| && u < |s.values| && s.graph.ReadsAt(n, 0, u) && DefinesAt(s.graph, (n, 0), v)
  {
    var v, u := s.graph.nodes[n].outputs[0], s.graph.nodes[n].inputs[0].value;
    assert s.graph.ReadsAt(n, 0, u) && DefinesAt(s.graph, (n, 0), v);
    var rank: seq<nat> :| s.graph.Ranked(rank);
    if u == v {
      EdgeFrom(s.graph, (n, 0), n, 0, v);
    }
  }

  lemma SkippedReads(s: Snapshot, n: NodeId, x: NodeId, i: nat, u: ValueId)
    requires IsViewAt(s.graph, n)
    ensures Skipped(s, n).graph.ReadsAt(x, i, u) <==>
              if s.graph.ReadsAt(x, i, s.graph.nodes[n].outputs[0]) then u == s.graph.nodes[n].inputs[0].value
              else s.graph.ReadsAt(x, i, u)
  {
    RewiredReads(s.graph, EveryReader(s.graph, s.graph.nodes[n].outputs[0]), s.graph.nodes[n].inputs[0].value, x, i, u);
  }

  lemma SkippedDefines(s: Snapshot, n: NodeId, at: Place, u: ValueId)
    requires IsViewAt(s.graph, n)
    ensures DefinesAt(Skipped(s, n).graph, at, u) <==> DefinesAt(s.graph, at, u)
    ensures Skipped(s, n).graph.Defines(at.0, u) <==> s.graph.Defines(at.0, u)
  {
    RewiredDefines(s.graph, EveryReader(s.graph, s.graph.nodes[n].outputs[0]), s.graph.nodes[n].inputs[0].value, at, u);
  }

  lemma SkippedNode(s: Snapshot, n: NodeId, x: NodeId)
    requires IsViewAt(s.graph, n) && x < |s.graph.nodes|
    ensures var node, node' := s.graph.nodes[x], Skipped(s, n).graph.nodes[x];
            && |node'.inputs| == |node.inputs| && node'.outputs == node.outputs && node'.deleted == node.deleted
            && (!node.op.Output? ==> node'.op == node.op) && node'.op.Output? == node.op.Output?
            && forall i: nat :: i < |node.inputs| ==>
                 node'.inputs[i] == if s.graph.ReadsAt(x, i, s.graph.nodes[n].outputs[0]) then s.graph.nodes[n].inputs[0]
                                    else node.inputs[i]
  {
  }

  // ----- the graph stays well-formed -----

  lemma SkipKeepsRanked(s: Snapshot, n: NodeId, rank: seq<nat>)
    requires Good(s) && IsViewAt(s.graph, n) && s.graph.Ranked(rank)
    ensures Skipped(s, n).graph.Ranked(rank)
  {
    SkipInBounds(s, n);
    var t := Skipped(s, n).graph;
    var u, v := s.graph.nodes[n].inputs[0].value, s.graph.nodes[n].outputs[0];
    assert |t.nodes| == |rank|;
    hide Skipped, Good;
    forall a: NodeId, b: NodeId | t.Edge(a, b) ensures rank[a] < rank[b] {
      var w: ValueId :| w in t.nodes[a].outputs && t.nodes[b].Reads(w);
      var j: nat :| j < |t.nodes[a].outputs| && t.nodes[a].outputs[j] == w;
      var i: nat :| i < |t.nodes[b].inputs| && t.nodes[b].inputs[i] == Some(w);
      assert DefinesAt(t, (a, j), w) && t.ReadsAt(b, i, w);
      SkippedDefines(s, n, (a, j), w);
      SkippedReads(s, n, b, i, w);
      if s.graph.ReadsAt(b, i, v) {
        EdgeFrom(s.graph, (a, j), n, 0, u);
        EdgeFrom(s.graph, (n, 0), b, i, v);
      } else {
        EdgeFrom(s.graph, (a, j), b, i, w);
      }
    }
  }

  lemma SkipKeepsClosed(s: Snapshot, n: NodeId)
    requires Good(s) && IsViewAt(s.graph, n)
    ensures Skipped(s, n).graph.Closed()
  {
    SkipInBounds(s, n);
    var t, u := Skipped(s, n).graph, s.graph.nodes[n].inputs[0].value;
    assert s.graph.Uses(n, u);
    forall x: NodeId, w: ValueId | t.Uses(x, w) ensures w in t.initializers || exists d: NodeId :: t.Defines(d, w) {
      var i: nat :| i < |t.nodes[x].inputs| && t.nodes[x].inputs[i] == Some(w);
      SkippedReads(s, n, x, i, w);
      assert s.graph.Uses(if w == u then n else x, w);
      if w !in s.graph.initializers {
        var d: NodeId :| s.graph.Defines(d, w);
        SkippedDefines(s, n, (d, 0), w);
      }
    }
  }

  lemma SkipKeepsViews(s: Snapshot, n: NodeId)
    requires Good(s) && IsViewAt(s.graph, n)
    ensures PlainViews(Skipped(s, n).graph) && InBounds(Skipped(s, n))
  {
    SkipInBounds(s, n);
    var t := Skipped(s, n);
    forall x: NodeId | t.graph.Live(x)
      ensures IsReshapeOrTranspose(t.graph.nodes[x]) ==> IsView(t.graph.nodes[x])
      ensures IsReinterpretOrContiguous(t.graph.nodes[x]) ==> IsView(t.graph.nodes[x]) && |t.graph.nodes[x].inputs| == 1
    {
      SkippedNode(s, n, x);
      assert s.graph.Live(x);
    }
    forall x: NodeId, i: nat, w: ValueId | t.graph.ReadsAt(x, i, w) ensures w < |t.values| {
      SkippedReads(s, n, x, i, w);
    }
    forall at: Place, w: ValueId | DefinesAt(t.graph, at, w) ensures w < |t.values| {
      SkippedDefines(s, n, at, w);
    }
  }

  lemma SkipKeepsGood(s: Snapshot, n: NodeId)
    requires Good(s) && IsViewAt(s.graph, n)
    ensures Good(Skipped(s, n))
  {
    var rank: seq<nat> :| s.graph.Ranked(rank);
    SkipKeepsRanked(s, n, rank);
    SkipKeepsClosed(s, n);
    SkipKeepsViews(s, n);
    SameDefinitions(s.graph, Skipped(s, n).graph);
  }

  // ----- what taking out one copy does to the values -----

  /** Where the node's output equals its input, the graph's equations stay the same. */
  lemma SkipKeepsSolutions<T(!new)>(s: Snapshot, n: NodeId, m: Meaning<T>, env: Env<T>)
    requires Good(s) && Skips(s, n) && env(s.graph.nodes[n].outputs[0]) == env(s.graph.nodes[n].inputs[0].value)
    ensures Solves(s, m, env) <==> Solves(Skipped(s, n), m, env)
  {
    var t := Skipped(s, n);
    forall x: NodeId ensures t.graph.Computes(x) <==> s.graph.Computes(x) {
      if x < |s.graph.nodes| {
        SkippedNode(s, n, x);
      }
    }
    hide NodeHolds, Skipped;
    forall x: NodeId | s.graph.Computes(x)
      ensures NodeHolds(s, m, env, s.graph.nodes[x]) <==> NodeHolds(t, m, env, t.graph.nodes[x])
    {
      SkippedMeans(s, n, m, env, x);
    }
  }

  lemma SkippedMeans<T(!new)>(s: Snapshot, n: NodeId, m: Meaning<T>, env: Env<T>, x: NodeId)
    requires Good(s) && Skips(s, n) && env(s.graph.nodes[n].outputs[0]) == env(s.graph.nodes[n].inputs[0].value)
    requires s.graph.Computes(x)
    ensures NodeHolds(s, m, env, s.graph.nodes[x]) <==> NodeHolds(Skipped(s, n), m, env, Skipped(s, n).graph.nodes[x])
  {
    var node := s.graph.nodes[x];
    SkippedNode(s, n, x);
    forall i: nat | i < |node.inputs| ensures node.inputs[i].Some? ==> s.graph.ReadsAt(x, i, node.inputs[i].value) {
    }
    SameMeaning(s, Skipped(s, n), m, env, node, Skipped(s, n).graph.nodes[x]);
  }

  /** The node itself is left in place. */
  lemma SkipStays(s: Snapshot, n: NodeId)
    requires Good(s) && IsViewAt(s.graph, n)
    ensures Skipped(s, n).graph.Live(n) && Skipped(s, n).graph.nodes[n] == s.graph.nodes[n]
  {
    SkipInBounds(s, n);
    SkippedNode(s, n, n);
    assert forall i: nat :: i < |s.graph.nodes[n].inputs| ==> Skipped(s, n).graph.nodes[n].inputs[i] == s.graph.nodes[n].inputs[i] by {
      assert !s.graph.nodes[n].op.Output?;
      OwnOutputUnread(s, n);
    }
    assert Skipped(s, n).graph.nodes[n].inputs == s.graph.nodes[n].inputs;
  }

  lemma OwnOutputUnread(s: Snapshot, n: NodeId)
    requires Good(s) && IsViewAt(s.graph, n)
    ensures forall i: nat :: !s.graph.ReadsAt(n, i, s.graph.nodes[n].outputs[0])
  {
    var rank: seq<nat> :| s.graph.Ranked(rank);
    forall i: nat | s.graph.ReadsAt(n, i, s.graph.nodes[n].outputs[0]) ensures false {
      EdgeFrom(s.graph, (n, 0), n, i, s.graph.nodes[n].outputs[0]);
    }
  }

  // ----- exactly when taking out one copy is right -----

  /** Up to node n the graph is as before, so what is read there has its old value. */
  lemma {:induction false} InputsAboveAgree<T(!new)>(s: Snapshot, n: NodeId, m: Meaning<T>, before: Env<T>, after: Env<T>,
                      rank: seq<nat>, x: NodeId, i: nat)
    requires Good(s) && IsViewAt(s.graph, n) && s.graph.Ranked(rank)
    requires Solves(s, m, before) && Solves(Skipped(s, n), m, after)
    requires forall v: ValueId :: Given(s.graph, v) ==> after(v) == before(v)
    requires s.graph.Live(x) && rank[x] <= rank[n] && i < |s.graph.nodes[x].inputs| && s.graph.nodes[x].inputs[i].Some?
    ensures after(s.graph.nodes[x].inputs[i].value) == before(s.graph.nodes[x].inputs[i].value)
    decreases rank[x]
  {
    var v := s.graph.nodes[x].inputs[i].value;
    if !Given(s.graph, v) {
      assert s.graph.Uses(x, v) && s.graph.ReadsAt(x, i, v);
      var d: NodeId :| s.graph.Defines(d, v);
      var j: nat :| j < |s.graph.nodes[d].outputs| && s.graph.nodes[d].outputs[j] == v;
      EdgeFrom(s.graph, (d, j), x, i, v);
      NodeAboveStays(s, n, rank, d);
      var node := s.graph.nodes[d];
      assert s.graph.Computes(d) && NodeHolds(s, m, before, node);
      assert Skipped(s, n).graph.Computes(d) && NodeHolds(Skipped(s, n), m, after, node);
      SameMeaning(Skipped(s, n), s, m, after, node, node);
      forall k: nat | k < |node.inputs| && node.inputs[k].Some? ensures after(node.inputs[k].value) == before(node.inputs[k].value) {
        InputsAboveAgree(s, n, m, before, after, rank, d, k);
      }
      assert Arguments(after, node.inputs) == Arguments(before, node.inputs);
    }
  }

  lemma NodeAboveStays(s: Snapshot, n: NodeId, rank: seq<nat>, d: NodeId)
    requires Good(s) && IsViewAt(s.graph, n) && s.graph.Ranked(rank) && s.graph.Computes(d) && rank[d] < rank[n]
    ensures Skipped(s, n).graph.nodes[d] == s.graph.nodes[d]
  {
    SkipInBounds(s, n);
    SkippedNode(s, n, d);
    var node := s.graph.nodes[d];
    forall i: nat | i < |node.inputs| ensures Skipped(s, n).graph.nodes[d].inputs[i] == node.inputs[i] {
      if s.graph.ReadsAt(d, i, s.graph.nodes[n].outputs[0]) {
        EdgeFrom(s.graph, (n, 0), d, i, s.graph.nodes[n].outputs[0]);
      }
    }
    assert Skipped(s, n).graph.nodes[d].inputs == node.inputs;
  }

  /** A marker that hands out the node's output hands out the same value afterwards exactly when
      the node's views leave their tensor as it is. */
  lemma SkipIsRightForValue<T(!new)>(s: Snapshot, n: NodeId, m: Meaning<T>, before: Env<T>, after: Env<T>, k: NodeId)
    requires Good(s) && Skips(s, n) && s.graph.ReadsAt(k, 0, s.graph.nodes[n].outputs[0])
    requires Solves(s, m, before) && Solves(Skipped(s, n), m, after)
    requires forall v: ValueId :: Given(s.graph, v) ==> after(v) == before(v)
    ensures var x := before(s.graph.nodes[n].inputs[0].value);
            OutputValue(Skipped(s, n), after, k) == OutputValue(s, before, k) <==> Applied(m, s.graph.nodes[n].op.ops, x) == x
  {
    var rank: seq<nat> :| s.graph.Ranked(rank);
    InputsAboveAgree(s, n, m, before, after, rank, n, 0);
    SkippedNode(s, n, k);
    assert s.graph.Computes(n) && NodeHolds(s, m, before, s.graph.nodes[n]);
  }

  /** Counts how many views are applied. */
  function Counting(): Meaning<int> {
    Meaning((b: seq<nat>, a: seq<nat>, x: int) => x + 1, (p: Option<seq<nat>>, x: int) => x + 1,
            (b: seq<nat>, a: seq<nat>, x: int) => x + 1, (op: Operator, inputs: seq<Option<int>>, j: nat) => 0)
  }

  lemma {:induction false} AppliedCounts(ops: seq<View>, x: int)
    ensures Applied(Counting(), ops, x) == x + |ops|
    decreases |ops|
  {
    if ops != [] {
      AppliedCounts(ops[..|ops| - 1], x);
    }
  }

  /** Every evaluation afterwards hands out at marker k what every evaluation before does. */
  ghost predicate KeepsOutput<T(!new)>(s: Snapshot, t: Snapshot, k: NodeId, m: Meaning<T>) {
    forall before: Env<T>, after: Env<T> :: Solves(s, m, before) && Solves(t, m, after) && SameGiven(s.graph, before, after) ==>
      OutputValue(t, after, k) == OutputValue(s, before, k)
  }

  ghost predicate SameGiven<T(!new)>(g: Graph, a: Env<T>, b: Env<T>) {
    forall v: ValueId :: Given(g, v) ==> b(v) == a(v)
  }

  lemma GivenIsNotComputed(g: Graph, v: ValueId)
    requires g.SingleDefinition() && InitializersFree(g) && Given(g, v)
    ensures !Computed(g, v)
  {
    if Computed(g, v) {
      var d: NodeId :| g.Computes(d) && v in g.nodes[d].outputs;
      assert g.Defines(d, v);
    }
  }

  lemma CountingTells(s: Snapshot, n: NodeId, k: NodeId)
    requires Good(s) && Skips(s, n) && s.graph.ReadsAt(k, 0, s.graph.nodes[n].outputs[0])
    requires InitializersFree(s.graph)
    requires s.graph.nodes[n].op.ops != []
    ensures !KeepsOutput(s, Skipped(s, n), k, Counting())
  {
    var m := Counting();
    SkipKeepsGood(s, n);
    var before := EvaluationExists(s, m, (v: ValueId) => 0);
    var after := EvaluationExists(Skipped(s, n), m, (v: ValueId) => 0);
    forall v: ValueId | Given(s.graph, v) ensures after(v) == before(v) {
      GivenIsNotComputed(s.graph, v);
      if Computed(Skipped(s, n).graph, v) {
        var d: NodeId :| Skipped(s, n).graph.Computes(d) && v in Skipped(s, n).graph.nodes[d].outputs;
        SkippedNode(s, n, d);
        assert s.graph.Computes(d);
      }
    }
    assert SameGiven(s.graph, before, after);
    SkipIsRightForValue(s, n, m, before, after, k);
    AppliedCounts(s.graph.nodes[n].op.ops, before(s.graph.nodes[n].inputs[0].value));
  }

  /** The output stays as it is for every meaning of the views exactly when the node has none. */
  lemma SkipIsRightExactly(s: Snapshot, n: NodeId, k: NodeId)
    requires Good(s) && Skips(s, n) && s.graph.ReadsAt(k, 0, s.graph.nodes[n].outputs[0])
    requires InitializersFree(s.graph)
    ensures (forall m: Meaning<int> :: KeepsOutput(s, Skipped(s, n), k, m)) <==> s.graph.nodes[n].op.ops == []
  {
    if s.graph.nodes[n].op.ops == [] {
      forall m: Meaning<int> ensures KeepsOutput(s, Skipped(s, n), k, m) {
        forall before: Env<int>, after: Env<int>
          | Solves(s, m, before) && Solves(Skipped(s, n), m, after) && SameGiven(s.graph, before, after)
          ensures OutputValue(Skipped(s, n), after, k) == OutputValue(s, before, k)
        {
          SkipIsRightForValue(s, n, m, before, after, k);
        }
      }
    } else {
      CountingTells(s, n, k);
    }
  }

  /** An input of dims [2, 2] is copied in transposed order and handed out. */
  function TransposedSquare(): Snapshot {
    Snapshot(Graph([Node([], [0], Input(0), false),
                    Node([Some(0)], [1], Contiguous([TransposeView(Some([1, 0]))]), false),
                    Node([Some(1)], [], Output(1), false)], {}),
             [[2, 2], [2, 2]])
  }

  /** Views of dims [2, 2] on row-major elements: a transposition turns them around. */
  function OnSquares(): Meaning<seq<int>> {
    Meaning((b: seq<nat>, a: seq<nat>, x: seq<int>) => x,
            (p: Option<seq<nat>>, x: seq<int>) => if p == Some([1, 0]) && |x| == 4 then [x[0], x[2], x[1], x[3]] else x,
            (b: seq<nat>, a: seq<nat>, x: seq<int>) => x,
            (op: Operator, inputs: seq<Option<seq<int>>>, j: nat) => [])
  }

  lemma SquareReadsAndDefines(g: Graph)
    requires g == TransposedSquare().graph
    ensures forall n: NodeId :: g.Live(n) <==> n < 3
    ensures forall n: NodeId, i: nat, v: ValueId :: g.ReadsAt(n, i, v) <==> i == 0 && ((n == 1 && v == 0) || (n == 2 && v == 1))
    ensures forall n: NodeId, i: nat, v: ValueId :: DefinesAt(g, (n, i), v) <==> i == 0 && v == n && n < 2
  {
  }

  lemma SquareIsWellFormed(g: Graph)
    requires forall n: NodeId :: g.Live(n) <==> n < 3
    requires |g.nodes| == 3
    requires forall n: NodeId, i: nat, v: ValueId :: g.ReadsAt(n, i, v) <==> i == 0 && ((n == 1 && v == 0) || (n == 2 && v == 1))
    requires forall n: NodeId, i: nat, v: ValueId :: DefinesAt(g, (n, i), v) <==> i == 0 && v == n && n < 2
    ensures g.WellFormed()
  {
    assert DefinesAt(g, (0, 0), 0) && DefinesAt(g, (1, 0), 1);
    forall n: NodeId, v: ValueId | g.Defines(n, v) ensures v == n && n < 2 {
      var i: nat :| i < |g.nodes[n].outputs| && g.nodes[n].outputs[i] == v;
      assert DefinesAt(g, (n, i), v);
    }
    forall n: NodeId, v: ValueId | g.Uses(n, v) ensures n == v + 1 && v < 2 && g.Defines(v, v) {
      var i: nat :| i < |g.nodes[n].inputs| && g.nodes[n].inputs[i] == Some(v);
      assert g.ReadsAt(n, i, v);
    }
    forall n: NodeId | g.Live(n) ensures |g.nodes[n].outputs| <= 1 {
      if |g.nodes[n].outputs| > 1 {
        assert DefinesAt(g, (n, 1), g.nodes[n].outputs[1]);
      }
    }
    forall a: NodeId, b: NodeId | g.Edge(a, b) ensures b == a + 1 && b < 3 {
      var v: ValueId :| v in g.nodes[a].outputs && g.nodes[b].Reads(v);
      assert g.Defines(a, v) && g.Uses(b, v);
    }
    assert g.Ranked([0, 1, 2]);
  }

  lemma TransposedSquareIsGood()
    ensures Good(TransposedSquare()) && Skips(TransposedSquare(), 1)
  {
    var s := TransposedSquare();
    SquareReadsAndDefines(s.graph);
    SquareIsWellFormed(s.graph);
  }

  /** A square contiguous tensor is handed out untransposed once the copy is taken out. */
  lemma SquareTransposeIsLost() returns (before: Env<seq<int>>, after: Env<seq<int>>)
    ensures Solves(TransposedSquare(), OnSquares(), before) && Solves(Skipped(TransposedSquare(), 1), OnSquares(), after)
    ensures SameGiven(TransposedSquare().graph, before, after)
    ensures OutputValue(TransposedSquare(), before, 2) == Some([1, 3, 2, 4])
    ensures OutputValue(Skipped(TransposedSquare(), 1), after, 2) == Some([1, 2, 3, 4])
  {
    before := (v: ValueId) => if v == 0 then [1, 2, 3, 4] else [1, 3, 2, 4];
    after := before;
    TransposedSquareIsGood();
    SquareSolved(TransposedSquare(), before);
  }

  lemma SquareSolved(s: Snapshot, env: Env<seq<int>>)
    requires s == TransposedSquare() && Good(s) && Skips(s, 1) && env(0) == [1, 2, 3, 4] && env(1) == [1, 3, 2, 4]
    ensures Solves(s, OnSquares(), env) && Solves(Skipped(s, 1), OnSquares(), env)
    ensures OutputValue(s, env, 2) == Some(env(1)) && OutputValue(Skipped(s, 1), env, 2) == Some(env(0))
  {
    SquareCopyHolds(s, env);
    SquareReadsAndDefines(s.graph);
    SquareSkipped(s);
    hide TransposedSquare, OnSquares, Skipped, Good, Skips, NodeHolds;
  }

  /** The transposing node is the only one that computes, before and after. */
  lemma SquareSkipped(s: Snapshot)
    requires s == TransposedSquare() && Good(s) && Skips(s, 1)
    ensures forall n: NodeId :: s.graph.Computes(n) <==> n == 1
    ensures forall n: NodeId :: Skipped(s, 1).graph.Computes(n) <==> n == 1
    ensures Skipped(s, 1).graph.nodes[1] == s.graph.nodes[1] && Skipped(s, 1).values == s.values
    ensures s.graph.Live(2) && s.graph.nodes[2].inputs == [Some(1)]
    ensures Skipped(s, 1).graph.Live(2) && Skipped(s, 1).graph.nodes[2].inputs == [Some(0)]
  {
    SkipStays(s, 1);
    SkippedNode(s, 1, 0);
    SkippedNode(s, 1, 2);
    assert s.graph.ReadsAt(2, 0, 1);
    hide Good, Skips;
  }

  lemma SquareCopyHolds(s: Snapshot, env: Env<seq<int>>)
    requires s == TransposedSquare() && env(0) == [1, 2, 3, 4] && env(1) == [1, 3, 2, 4]
    ensures forall t: Snapshot :: t.values == s.values ==> NodeHolds(t, OnSquares(), env, s.graph.nodes[1])
  {
    var node := s.graph.nodes[1];
    assert node.op.ops[..0] == [];
    assert Applied(OnSquares(), node.op.ops, env(0)) == env(1);
    hide OnSquares, Applied;
  }

  // ----- the pass -----

  /** Takes out the copy that node n makes. */
  method Skip(op: SimpleGraphOp, n: NodeId)
    requires Ready(op) && Skips(op.State(), n)
    modifies op
    ensures Ready(op) && op.State() == Skipped(old(op.State()), n)
  {
    ghost var before := op.State();
    SkipInBounds(before, n);
    SkipKeepsGood(before, n);
    var node := op.graph.nodes[n];
    assert Resolved(op.graph, op.value2defined, node.inputs[0].value);
    hide Good, Sound, Resolved;
    op.ReplaceInputValue(node.outputs[0], node.inputs[0].value);
  }

  /** The pass takes out the copies of node n: a contiguous node whose input is stored
      contiguously and has the dims of its output. */
  predicate Chosen(s: Snapshot, contiguous: set<ValueId>, n: NodeId) {
    && IsViewAt(s.graph, n) && s.graph.nodes[n].op.Contiguous? && s.graph.nodes[n].inputs[0].value in contiguous
    && Dims(s, s.graph.nodes[n].inputs[0].value) == Dims(s, s.graph.nodes[n].outputs[0])
  }

  /** In terms of the node: it is contiguous, and what it reads is stored contiguously and has the
      dims of what it defines. */
  lemma ChosenMeans(s: Snapshot, contiguous: set<ValueId>, n: NodeId)
    requires Good(s) && n < |s.graph.nodes| && !s.graph.nodes[n].deleted && s.graph.nodes[n].op.Contiguous?
    ensures |s.graph.nodes[n].inputs| == 1 == |s.graph.nodes[n].outputs| && s.graph.nodes[n].inputs[0].Some?
    ensures s.graph.nodes[n].inputs[0].value < |s.values| && s.graph.nodes[n].outputs[0] < |s.values|
    ensures Chosen(s, contiguous, n) <==>
              && s.graph.nodes[n].inputs[0].value in contiguous
              && s.values[s.graph.nodes[n].inputs[0].value] == s.values[s.graph.nodes[n].outputs[0]]
  {
    assert s.graph.Live(n) && IsViewAt(s.graph, n);
    assert s.graph.ReadsAt(n, 0, s.graph.nodes[n].inputs[0].value);
    assert DefinesAt(s.graph, (n, 0), s.graph.nodes[n].outputs[0]);
  }

  lemma OnlyCopiesChosen(s: Snapshot, contiguous: set<ValueId>, n: NodeId)
    requires Chosen(s, contiguous, n)
    ensures n < |s.graph.nodes| && !s.graph.nodes[n].deleted && s.graph.nodes[n].op.Contiguous?
  {
  }

  method SelectCopies(op: SimpleGraphOp, contiguous: set<ValueId>) returns (ids: seq<NodeId>)
    requires PlainViews(op.graph)
    ensures forall n: NodeId :: n in ids <==> Chosen(op.State(), contiguous, n)
    ensures forall i, j :: 0 <= i < j < |ids| ==> ids[i] < ids[j]
  {
    ids := [];
    for n := 0 to |op.graph.nodes|
      invariant forall m: NodeId :: m in ids <==> m < n && Chosen(op.State(), contiguous, m)
      invariant (forall i :: 0 <= i < |ids| ==> ids[i] < n) && forall i, j :: 0 <= i < j < |ids| ==> ids[i] < ids[j]
    {
      if op.graph.Live(n) && op.graph.nodes[n].op.Contiguous? {
        assert IsViewAt(op.graph, n);
        if Chosen(op.State(), contiguous, n) {
          ids := ids + [n];
        }
      }
    }
  }

  ghost predicate Unread(g: Graph, v: ValueId) {
    forall n: NodeId, i: nat :: !g.ReadsAt(n, i, v)
  }

  /** The copies of the nodes listed are taken out one after another. */
  ghost predicate SkipsInOrder(trace: seq<Snapshot>, ids: seq<NodeId>) {
    |trace| == |ids| + 1 && forall k :: 0 <= k < |ids| ==> Skips(trace[k], ids[k]) && trace[k + 1] == Skipped(trace[k], ids[k])
  }

  /** All nodes listed still copy, with their old outputs, and nothing reads those of the first k. */
  ghost predicate Skipping(start: Snapshot, s: Snapshot, ids: seq<NodeId>, k: nat)
    requires k <= |ids|
  {
    && (forall j :: 0 <= j < |ids| ==> SkipsStill(start, s, ids[j]))
    && (forall j :: 0 <= j < k ==> SkipsStill(start, s, ids[j]) && Unread(s.graph, start.graph.nodes[ids[j]].outputs[0]))
  }

  ghost predicate SkipsStill(start: Snapshot, s: Snapshot, n: NodeId) {
    Skips(start, n) && Skips(s, n) && s.graph.nodes[n].outputs == start.graph.nodes[n].outputs
  }

  lemma SkippedStill(start: Snapshot, s: Snapshot, n: NodeId, x: NodeId)
    requires Good(s) && SkipsStill(start, s, n) && SkipsStill(start, s, x)
    ensures SkipsStill(start, Skipped(s, n), x)
    ensures x == n || Unread(s.graph, start.graph.nodes[x].outputs[0]) ==> Unread(Skipped(s, n).graph, start.graph.nodes[x].outputs[0])
  {
    SkippedNode(s, n, x);
    SkipInBounds(s, n);
    var v := start.graph.nodes[x].outputs[0];
    forall y: NodeId, i: nat | x == n || Unread(s.graph, v) ensures !Skipped(s, n).graph.ReadsAt(y, i, v) {
      SkippedReads(s, n, y, i, v);
      assert s.graph.ReadsAt(n, 0, s.graph.nodes[n].inputs[0].value);
    }
  }

  /** One step of the pass below. */
  method SkipNext(op: SimpleGraphOp, ids: seq<NodeId>, k: nat, ghost start: Snapshot)
    requires Ready(op) && k < |ids| && Skipping(start, op.State(), ids, k)
    modifies op
    ensures Ready(op) && Skipping(start, op.State(), ids, k + 1)
    ensures Skips(old(op.State()), ids[k]) && op.State() == Skipped(old(op.State()), ids[k])
  {
    ghost var before := op.State();
    assert SkipsStill(start, before, ids[k]);
    Skip(op, ids[k]);
    SkippingFurther(start, before, ids, k);
  }

  lemma SkippingFurther(start: Snapshot, s: Snapshot, ids: seq<NodeId>, k: nat)
    requires Good(s) && k < |ids| && Skipping(start, s, ids, k) && IsViewAt(s.graph, ids[k])
    ensures Skipping(start, Skipped(s, ids[k]), ids, k + 1)
  {
    forall j | 0 <= j < |ids|
      ensures SkipsStill(start, Skipped(s, ids[k]), ids[j])
      ensures j <= k ==> Unread(Skipped(s, ids[k]).graph, start.graph.nodes[ids[j]].outputs[0])
    {
      SkippedStill(start, s, ids[k], ids[j]);
    }
  }

  /** All nodes chosen are taken out, one after another, and nothing reads their outputs afterwards. */
  ghost predicate Eliminates(s: Snapshot, contiguous: set<ValueId>, ids: seq<NodeId>, trace: seq<Snapshot>, t: Snapshot) {
    && (forall n: NodeId :: n in ids <==> Chosen(s, contiguous, n))
    && SkipsInOrder(trace, ids) && trace[0] == s && trace[|ids|] == t
    && forall n: NodeId :: Chosen(s, contiguous, n) ==> Unread(t.graph, s.graph.nodes[n].outputs[0])
  }

  /** Takes out every copy of a contiguous tensor to the same dims. */
  method ContiguousElimination(op: SimpleGraphOp, contiguous: set<ValueId>)
    returns (ghost ids: seq<NodeId>, ghost trace: seq<Snapshot>)
    requires Ready(op)
    modifies op
    ensures Ready(op) && Eliminates(old(op.State()), contiguous, ids, trace, op.State())
    ensures forall i, j :: 0 <= i < j < |ids| ==> ids[i] < ids[j]
  {
    ghost var start := op.State();
    var copies := SelectCopies(op, contiguous);
    ids := copies;
    ChosenSkip(start, contiguous, copies);
    hide Ready, Good, Skipping, SkipsInOrder, Chosen, Eliminates;
    trace := SkipListed(op, copies);
    SkippedAll(start, op.State(), contiguous, copies, trace);
  }

  /** Nothing reads the output of a node taken out. */
  lemma EliminatedIsUnread(s: Snapshot, contiguous: set<ValueId>, ids: seq<NodeId>, trace: seq<Snapshot>, t: Snapshot, n: NodeId, r: NodeId)
    requires Good(s) && Eliminates(s, contiguous, ids, trace, t) && r < |t.graph.nodes| && !t.graph.nodes[r].deleted
    requires n < |s.graph.nodes| && !s.graph.nodes[n].deleted && s.graph.nodes[n].op.Contiguous?
    requires s.graph.nodes[n].inputs != [] && s.graph.nodes[n].inputs[0].Some? && s.graph.nodes[n].inputs[0].value in contiguous
    requires |s.graph.nodes[n].outputs| == 1 && Dims(s, s.graph.nodes[n].inputs[0].value) == Dims(s, s.graph.nodes[n].outputs[0])
    ensures Some(s.graph.nodes[n].outputs[0]) !in t.graph.nodes[r].inputs
  {
    ChosenMeans(s, contiguous, n);
    assert Unread(t.graph, s.graph.nodes[n].outputs[0]);
    forall i: nat | i < |t.graph.nodes[r].inputs| ensures t.graph.nodes[r].inputs[i] != Some(s.graph.nodes[n].outputs[0]) {
      assert !t.graph.ReadsAt(r, i, s.graph.nodes[n].outputs[0]);
    }
  }

  /** Takes out the copies of the nodes listed, one after another. */
  method SkipListed(op: SimpleGraphOp, ids: seq<NodeId>) returns (ghost trace: seq<Snapshot>)
    requires Ready(op) && Skipping(op.State(), op.State(), ids, 0)
    modifies op
    ensures Ready(op) && Skipping(old(op.State()), op.State(), ids, |ids|)
    ensures |trace| == |ids| + 1 && SkipsInOrder(trace, ids) && trace[0] == old(op.State()) && trace[|ids|] == op.State()
  {
    ghost var start := op.State();
    trace := [start];
    NothingSkipped(start);
    hide Ready, Good, Skips, Skipped, Skipping, SkipsInOrder;
    for k := 0 to |ids|
      invariant Ready(op) && Skipping(start, op.State(), ids, k)
      invariant |trace| == k + 1 && trace[0] == start && trace[k] == op.State() && SkipsInOrder(trace, ids[..k])
    {
      SkipNext(op, ids, k, start);
      OneMoreSkipped(trace, ids, k, op.State());
      trace := trace + [op.State()];
    }
    assert ids[..|ids|] == ids;
  }

  lemma NothingSkipped(s: Snapshot)
    ensures SkipsInOrder([s], [])
  {
  }

  lemma OneMoreSkipped(trace: seq<Snapshot>, ids: seq<NodeId>, k: nat, t: Snapshot)
    requires k < |ids| && SkipsInOrder(trace, ids[..k]) && Skips(trace[k], ids[k]) && t == Skipped(trace[k], ids[k])
    ensures SkipsInOrder(trace + [t], ids[..k + 1])
  {
  }

  lemma SkippedAll(start: Snapshot, s: Snapshot, contiguous: set<ValueId>, ids: seq<NodeId>, trace: seq<Snapshot>)
    requires Skipping(start, s, ids, |ids|) && forall n: NodeId :: n in ids <==> Chosen(start, contiguous, n)
    requires SkipsInOrder(trace, ids) && trace[0] == start && trace[|ids|] == s
    ensures Eliminates(start, contiguous, ids, trace, s)
  {
    hide SkipsStill, Unread;
    forall n: NodeId | Chosen(start, contiguous, n) ensures Unread(s.graph, start.graph.nodes[n].outputs[0]) {
      var j :| 0 <= j < |ids| && ids[j] == n;
    }
  }

  lemma ChosenSkip(s: Snapshot, contiguous: set<ValueId>, ids: seq<NodeId>)
    requires forall n :: n in ids ==> Chosen(s, contiguous, n)
    ensures Skipping(s, s, ids, 0)
  {
    forall j | 0 <= j < |ids| ensures SkipsStill(s, s, ids[j]) {
      assert ids[j] in ids;
    }
  }
}
