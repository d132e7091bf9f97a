/** Chains of view nodes, and what replacing the end of a chain by one node keeps. */
module ViewChains {
  import opened Options
  import opened GraphModel
  import opened UseDefIndex
  import opened GraphIndex

  /** A graph with the dims of every value. */
  datatype Snapshot = Snapshot(graph: Graph, values: seq<seq<nat>>)

  predicate IsReshapeOrTranspose(node: Node) {
    node.op.Reshape? || node.op.Transpose?
  }

  predicate IsReinterpretOrContiguous(node: Node) {
    node.op.Reinterpret? || node.op.Contiguous?
  }

  /** A view node turns its first input into its one output. */
  predicate IsView(node: Node) {
    && (IsReshapeOrTranspose(node) || IsReinterpretOrContiguous(node))
    && |node.outputs| == 1 && node.inputs != [] && node.inputs[0].Some?
  }

  ghost predicate PlainViews(g: Graph) {
    forall n: NodeId :: g.Live(n) ==>
      && (IsReshapeOrTranspose(g.nodes[n]) ==> IsView(g.nodes[n]))
      && (IsReinterpretOrContiguous(g.nodes[n]) ==> IsView(g.nodes[n]) && |g.nodes[n].inputs| == 1)
  }

  /** Contiguous nodes copy and do nothing else. */
  ghost predicate PlainCopies(g: Graph) {
    forall n: NodeId :: g.Live(n) && g.nodes[n].op.Contiguous? ==> g.nodes[n].op.ops == []
  }

  ghost predicate InBounds(s: Snapshot) {
    && (forall n: NodeId, i: nat, v: ValueId :: s.graph.ReadsAt(n, i, v) ==> v < |s.values|)
    && (forall at: Place, v: ValueId :: DefinesAt(s.graph, at, v) ==> v < |s.values|)
    && (forall v: ValueId :: v in s.graph.initializers ==> v < |s.values|)
  }

  ghost predicate Good(s: Snapshot) {
    s.graph.WellFormed() && PlainViews(s.graph) && InBounds(s)
  }

  function Dims(s: Snapshot, v: ValueId): seq<nat> {
    if v < |s.values| then s.values[v] else []
  }

  /** The views that a view node applies. */
  function OpsOf(s: Snapshot, node: Node): seq<View>
    requires IsView(node)
  {
    match node.op
    case Reshape => [ReshapeView(Dims(s, node.inputs[0].value), Dims(s, node.outputs[0]))]
    case Transpose(perm) => [TransposeView(perm)]
    case Reinterpret(ops) => ops
    case Contiguous(ops) => ops
  }

  /** Live view nodes, each reading what the one before defines: from `source` to v. */
  ghost predicate Chain(g: Graph, path: seq<NodeId>, source: ValueId, v: ValueId)
    decreases |path|
  {
    if path == [] then source == v
    else
      var n := |path| - 1;
      && IsViewAt(g, path[n]) && g.nodes[path[n]].outputs[0] == v
      && Chain(g, path[..n], source, g.nodes[path[n]].inputs[0].value)
  }

  predicate IsViewAt(g: Graph, n: NodeId) {
    g.Live(n) && IsView(g.nodes[n])
  }

  ghost function PathOps(s: Snapshot, path: seq<NodeId>): seq<View>
    requires forall k :: 0 <= k < |path| ==> IsViewAt(s.graph, path[k])
    decreases |path|
  {
    if path == [] then []
    else
      assert IsViewAt(s.graph, path[|path| - 1]);
      PathOps(s, path[..|path| - 1]) + OpsOf(s, s.graph.nodes[path[|path| - 1]])
  }

  lemma {:induction false} ChainIsViews(g: Graph, path: seq<NodeId>, source: ValueId, v: ValueId, k: nat)
    requires Chain(g, path, source, v) && k < |path|
    ensures IsViewAt(g, path[k])
    decreases |path|
  {
    var n := |path| - 1;
    if k < n {
      ChainIsViews(g, path[..n], source, g.nodes[path[n]].inputs[0].value, k);
    }
  }

  /** A chain grows at its start. */
  lemma {:induction false} ChainPrepend(g: Graph, n: NodeId, path: seq<NodeId>, source: ValueId, v: ValueId)
    requires Chain(g, path, source, v) && IsViewAt(g, n) && g.nodes[n].outputs[0] == source
    ensures Chain(g, [n] + path, g.nodes[n].inputs[0].value, v)
    decreases |path|
  {
    var k := |path| - 1;
    if path == [] {
      assert ([n] + path)[..0] == [];
    } else {
      ChainPrepend(g, n, path[..k], source, g.nodes[path[k]].inputs[0].value);
      assert ([n] + path)[..|[n] + path| - 1] == [n] + path[..k];
    }
  }

  /** A chain grows at its end. */
  lemma ChainAppend(g: Graph, path: seq<NodeId>, n: NodeId, source: ValueId, v: ValueId)
    requires Chain(g, path, source, v) && IsViewAt(g, n) && g.nodes[n].inputs[0].value == v
    ensures Chain(g, path + [n], source, g.nodes[n].outputs[0])
  {
    assert (path + [n])[..|path|] == path;
  }

  /** Slot 0 of node n is the one place that reads v. */
  ghost predicate SoleReader(g: Graph, v: ValueId, n: NodeId) {
    g.ReadsAt(n, 0, v) && forall m: NodeId, i: nat :: g.ReadsAt(m, i, v) ==> m == n && i == 0
  }

  /** A chain of reinterpret and contiguous nodes from v on, each the sole reader of the value
      before it, that cannot be made longer. */
  ghost predicate FoldableChain(g: Graph, path: seq<NodeId>, v: ValueId, last: ValueId) {
    && Chain(g, path, v, last)
    && (forall k :: 0 <= k < |path| ==> FoldableAt(g, path, k))
    && !exists n: NodeId :: SoleReader(g, last, n) && IsReinterpretOrContiguous(g.nodes[n])
  }

  ghost predicate FoldableAt(g: Graph, path: seq<NodeId>, k: nat)
    requires k < |path|
  {
    && IsViewAt(g, path[k]) && IsReinterpretOrContiguous(g.nodes[path[k]])
    && SoleReader(g, g.nodes[path[k]].inputs[0].value, path[k])
  }

  function Backwards(path: seq<NodeId>): (r: seq<NodeId>)
    ensures |r| == |path| && forall k :: 0 <= k < |r| ==> r[k] == path[|path| - 1 - k]
  {
    seq(|path|, k requires 0 <= k < |path| => path[|path| - 1 - k])
  }

  // ----- one rewriting step -----

  /** The chain that is bundled and the operator of the new node. */
  datatype Bundle = Bundle(path: seq<NodeId>, source: ValueId, v: ValueId, op: Operator)

  ghost predicate Bundles(s: Snapshot, b: Bundle) {
    && b.path != [] && Chain(s.graph, b.path, b.source, b.v)
    && (b.op.Reinterpret? || b.op.Contiguous?)
    && (forall k :: 0 <= k < |b.path| ==> IsViewAt(s.graph, b.path[k]))
    && b.op.ops == PathOps(s, b.path)
  }

  function NewNode(s: Snapshot, b: Bundle): Node {
    Node([Some(b.source)], [|s.values|], b.op, false)
  }

  function Added(g: Graph, node: Node): Graph {
    g.(nodes := g.nodes + [node])
  }

  ghost function EveryReader(g: Graph, v: ValueId): (r: set<Place>)
    ensures forall n: NodeId, i: nat :: (n, i) in r <==> g.ReadsAt(n, i, v)
  {
    Readers(g, v, (n, node) => true)
  }

  /** The new node is added, and every reader of the chain's end reads it instead. */
  ghost function Bundled(s: Snapshot, b: Bundle): Snapshot {
    var g := Added(s.graph, NewNode(s, b));
    Snapshot(Rewired(g, EveryReader(g, b.v), |s.values|), s.values + [Dims(s, b.v)])
  }

  ghost predicate Step(s: Snapshot, t: Snapshot) {
    exists b: Bundle :: Bundles(s, b) && t == Bundled(s, b)
  }

  ghost predicate Steps(trace: seq<Snapshot>) {
    trace != [] && forall k :: 0 < k < |trace| ==> Step(trace[k - 1], trace[k])
  }

  ghost predicate Rewritten(s: Snapshot, t: Snapshot) {
    exists trace: seq<Snapshot> :: Steps(trace) && trace[0] == s && trace[|trace| - 1] == t
  }

  lemma RewrittenToItself(s: Snapshot)
    ensures Rewritten(s, s)
  {
    assert Steps([s]);
  }

  lemma RewrittenFurther(s: Snapshot, t: Snapshot, b: Bundle)
    requires Rewritten(s, t) && Bundles(t, b)
    ensures Rewritten(s, Bundled(t, b))
  {
    hide Bundles, Bundled;
    var trace: seq<Snapshot> :| Steps(trace) && trace[0] == s && trace[|trace| - 1] == t;
    assert Step(t, Bundled(t, b));
    var longer := trace + [Bundled(t, b)];
    forall k | 0 < k < |longer| ensures Step(longer[k - 1], longer[k]) {
    }
    assert Steps(longer);
  }

  // ----- a chain in a ranked graph -----

  lemma {:induction false} ChainIsRanked(g: Graph, rank: seq<nat>, path: seq<NodeId>, source: ValueId, v: ValueId)
    requires Chain(g, path, source, v) && g.Ranked(rank) && path != []
    ensures g.Live(path[0]) && g.nodes[path[0]].Reads(source)
    ensures g.Defines(path[|path| - 1], v) && rank[path[0]] <= rank[path[|path| - 1]]
    decreases |path|
  {
    var n := |path| - 1;
    var u := g.nodes[path[n]].inputs[0].value;
    assert Some(u) in g.nodes[path[n]].inputs;
    if n > 0 {
      ChainIsRanked(g, rank, path[..n], source, u);
      assert g.Edge(path[n - 1], path[n]);
    }
  }

  /** No chain ends where it starts. */
  lemma ChainEndsElsewhere(g: Graph, path: seq<NodeId>, source: ValueId, v: ValueId)
    requires Chain(g, path, source, v) && g.Acyclic() && path != []
    ensures source != v
  {
    var rank: seq<nat> :| g.Ranked(rank);
    ChainIsRanked(g, rank, path, source, v);
    assert source == v ==> g.Edge(path[|path| - 1], path[0]);
  }

  // ----- what a step does to reads and definitions -----

  lemma BundledReads(s: Snapshot, b: Bundle, n: NodeId, i: nat, u: ValueId)
    requires b.source != b.v
    ensures var g, g' := s.graph, Bundled(s, b).graph;
            g'.ReadsAt(n, i, u) <==>
              if n == |g.nodes| then i == 0 && u == b.source
              else if g.ReadsAt(n, i, b.v) then u == |s.values| else g.ReadsAt(n, i, u)
  {
    var g1 := Added(s.graph, NewNode(s, b));
    RewiredReads(g1, EveryReader(g1, b.v), |s.values|, n, i, u);
  }

  lemma BundledDefines(s: Snapshot, b: Bundle, at: Place, u: ValueId)
    ensures DefinesAt(Bundled(s, b).graph, at, u) <==> DefinesAt(s.graph, at, u) || (at == (|s.graph.nodes|, 0) && u == |s.values|)
  {
    var g1 := Added(s.graph, NewNode(s, b));
    RewiredDefines(g1, EveryReader(g1, b.v), |s.values|, at, u);
  }

  lemma BundledNode(s: Snapshot, b: Bundle, n: NodeId)
    requires b.source != b.v && n < |s.graph.nodes|
    ensures var node, node' := s.graph.nodes[n], Bundled(s, b).graph.nodes[n];
            && |node'.inputs| == |node.inputs| && node'.outputs == node.outputs && node'.deleted == node.deleted
            && (!node.op.Output? ==> node'.op == node.op) && node'.op.Output? == node.op.Output?
            && forall i: nat :: i < |node.inputs| ==>
                 node'.inputs[i] == if s.graph.ReadsAt(n, i, b.v) then Some(|s.values|) else node.inputs[i]
  {
  }

  lemma NewNodeStays(s: Snapshot, b: Bundle)
    requires b.source != b.v
    ensures |Bundled(s, b).graph.nodes| == |s.graph.nodes| + 1
    ensures (b.op.Reinterpret? || b.op.Contiguous?) ==> Bundled(s, b).graph.nodes[|s.graph.nodes|] == NewNode(s, b)
  {
    var g1 := Added(s.graph, NewNode(s, b));
    assert Bundled(s, b).graph.nodes[|s.graph.nodes|].inputs == [Some(b.source)];
  }
}
