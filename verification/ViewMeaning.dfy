/** What a graph computes for any meaning of its operators, and that bundling chains of views
    leaves it as it is. */
module ViewMeaning {
  import opened Options
  import opened GraphModel
  import opened UseDefIndex
  import opened ViewChains

  /** A meaning: what reshaping, transposing and broadcasting do to a tensor, and the results of
      every other operator. */
  datatype Meaning<!T(!new)> = Meaning(reshape: (seq<nat>, seq<nat>, T) -> T, transpose: (Option<seq<nat>>, T) -> T,
                                       broadcast: (seq<nat>, seq<nat>, T) -> T, general: (Operator, seq<Option<T>>, nat) -> T) {
    /** What one view does to a tensor. */
    function Viewed(view: View, x: T): T {
      match view
      case ReshapeView(before, after) => reshape(before, after, x)
      case TransposeView(perm) => transpose(perm, x)
      case BroadcastView(before, after) => broadcast(before, after, x)
    }
  }

  /** A value for every value id. */
  type Env<!T> = ValueId -> T

  function Applied<T(!new)>(m: Meaning<T>, ops: seq<View>, x: T): T
    decreases |ops|
  {
    if ops == [] then x else m.Viewed(ops[|ops| - 1], Applied(m, ops[..|ops| - 1], x))
  }

  lemma {:induction false} AppliedInTurn<T(!new)>(m: Meaning<T>, a: seq<View>, b: seq<View>, x: T)
    ensures Applied(m, a + b, x) == Applied(m, b, Applied(m, a, x))
    decreases |b|
  {
    if b == [] {
      assert a + b == a;
    } else {
      assert (a + b)[..|a + b| - 1] == a + b[..|b| - 1];
      AppliedInTurn(m, a, b[..|b| - 1], x);
    }
  }

  function Arguments<T>(env: Env<T>, inputs: seq<Option<ValueId>>): (r: seq<Option<T>>)
    ensures |r| == |inputs|
  {
    seq(|inputs|, i requires 0 <= i < |inputs| => if inputs[i].Some? then Some(env(inputs[i].value)) else None)
  }

  /** What a view node makes of its input. */
  function ViewResult<T(!new)>(s: Snapshot, m: Meaning<T>, node: Node, x: T): T
    requires IsView(node)
  {
    match node.op
    case Reshape => m.reshape(Dims(s, node.inputs[0].value), Dims(s, node.outputs[0]), x)
    case Transpose(perm) => m.transpose(perm, x)
    case Reinterpret(ops) => Applied(m, ops, x)
    case Contiguous(ops) => Applied(m, ops, x)
  }

  /** The views of a node do what the node does. */
  lemma OpsMeanNode<T(!new)>(s: Snapshot, m: Meaning<T>, node: Node, x: T)
    requires IsView(node)
    ensures Applied(m, OpsOf(s, node), x) == ViewResult(s, m, node, x)
  {
    forall v: View ensures Applied(m, [v], x) == m.Viewed(v, x) {
      AppliedOnce(m, v, x);
    }
  }

  lemma AppliedOnce<T(!new)>(m: Meaning<T>, v: View, x: T)
    ensures Applied(m, [], x) == x && Applied(m, [v], x) == m.Viewed(v, x)
  {
    assert [v][..0] == [];
  }

  /** The outputs of a node are its results. */
  ghost predicate NodeHolds<T(!new)>(s: Snapshot, m: Meaning<T>, env: Env<T>, node: Node) {
    if IsView(node) then env(node.outputs[0]) == ViewResult(s, m, node, env(node.inputs[0].value))
    else forall j: nat :: j < |node.outputs| ==> env(node.outputs[j]) == m.general(node.op, Arguments(env, node.inputs), j)
  }

  /** Every computing node's outputs are its results. */
  ghost predicate Solves<T(!new)>(s: Snapshot, m: Meaning<T>, env: Env<T>) {
    forall n: NodeId :: s.graph.Computes(n) ==> NodeHolds(s, m, env, s.graph.nodes[n])
  }

  /** The value a chain ends in is its start with the chain's views applied. */
  lemma {:induction false} ChainMeans<T(!new)>(s: Snapshot, m: Meaning<T>, env: Env<T>, path: seq<NodeId>,
                      source: ValueId, v: ValueId)
    requires Solves(s, m, env) && Chain(s.graph, path, source, v)
    requires forall k :: 0 <= k < |path| ==> IsViewAt(s.graph, path[k])
    ensures env(v) == Applied(m, PathOps(s, path), env(source))
    decreases |path|
  {
    if path != [] {
      var n := |path| - 1;
      assert IsViewAt(s.graph, path[n]);
      var node := s.graph.nodes[path[n]];
      assert NodeHolds(s, m, env, node);
      ChainMeans(s, m, env, path[..n], source, node.inputs[0].value);
      AppliedInTurn(m, PathOps(s, path[..n]), OpsOf(s, node), env(source));
      OpsMeanNode(s, m, node, env(node.inputs[0].value));
    }
  }

  // ----- one step -----

  /** A node means the same when every slot holds an equal value of the same dims. */
  lemma SameMeaning<T(!new)>(s: Snapshot, t: Snapshot, m: Meaning<T>, env: Env<T>, node: Node, node': Node)
    requires |node'.inputs| == |node.inputs| && node'.outputs == node.outputs && node'.op == node.op
    requires forall i: nat :: i < |node.inputs| ==>
      && node'.inputs[i].Some? == node.inputs[i].Some?
      && (node.inputs[i].Some? ==> env(node'.inputs[i].value) == env(node.inputs[i].value))
      && (node.inputs[i].Some? ==> Dims(t, node'.inputs[i].value) == Dims(s, node.inputs[i].value))
    requires IsView(node) ==> Dims(t, node.outputs[0]) == Dims(s, node.outputs[0])
    ensures NodeHolds(s, m, env, node) <==> NodeHolds(t, m, env, node')
  {
    if IsView(node) {
      assert IsView(node') && forall x: T :: ViewResult(t, m, node', x) == ViewResult(s, m, node, x);
    } else {
      assert !IsView(node') && Arguments(env, node'.inputs) == Arguments(env, node.inputs);
    }
  }

  /** A node means the same before and after, when the new value equals the one it stands for. */
  lemma NodeKeepsMeaning<T(!new)>(s: Snapshot, b: Bundle, m: Meaning<T>, env: Env<T>, n: NodeId)
    requires InBounds(s) && b.source != b.v && b.v < |s.values| && s.graph.Computes(n)
    requires env(|s.values|) == env(b.v)
    ensures NodeHolds(s, m, env, s.graph.nodes[n]) <==> NodeHolds(Bundled(s, b), m, env, Bundled(s, b).graph.nodes[n])
  {
    var t := Bundled(s, b);
    var node, node' := s.graph.nodes[n], t.graph.nodes[n];
    BundledNode(s, b, n);
    forall i: nat | i < |node.inputs|
      ensures node'.inputs[i].Some? == node.inputs[i].Some?
      ensures node.inputs[i].Some? ==> env(node'.inputs[i].value) == env(node.inputs[i].value)
      ensures node.inputs[i].Some? ==> Dims(t, node'.inputs[i].value) == Dims(s, node.inputs[i].value)
    {
      assert node.inputs[i].Some? ==> s.graph.ReadsAt(n, i, node.inputs[i].value);
    }
    if IsView(node) {
      assert DefinesAt(s.graph, (n, 0), node.outputs[0]);
    }
    SameMeaning(s, t, m, env, node, node');
  }

  lemma BundleInBounds(s: Snapshot, b: Bundle)
    requires Good(s) && Bundles(s, b)
    ensures b.source != b.v && b.v < |s.values| && b.source < |s.values|
  {
    ChainEndsElsewhere(s.graph, b.path, b.source, b.v);
    var rank: seq<nat> :| s.graph.Ranked(rank);
    ChainIsRanked(s.graph, rank, b.path, b.source, b.v);
    var last := b.path[|b.path| - 1];
    assert IsViewAt(s.graph, last);
    assert DefinesAt(s.graph, (last, 0), b.v);
    var i: nat :| i < |s.graph.nodes[b.path[0]].inputs| && s.graph.nodes[b.path[0]].inputs[i] == Some(b.source);
    assert s.graph.ReadsAt(b.path[0], i, b.source);
  }

  lemma ReaderRanksHigher(g: Graph, rank: seq<nat>, d: NodeId, n: NodeId, v: ValueId)
    requires g.Ranked(rank) && g.Defines(d, v) && g.Live(n) && g.nodes[n].Reads(v)
    ensures rank[d] < rank[n]
  {
    assert g.Edge(d, n);
  }

  /** The chain itself is left in place by the step: its nodes do not read its end. */
  lemma {:induction false} ChainStays(s: Snapshot, b: Bundle, rank: seq<nat>, last: NodeId, path: seq<NodeId>, v: ValueId)
    requires Good(s) && b.source != b.v && b.v < |s.values| && s.graph.Ranked(rank) && s.graph.Defines(last, b.v)
    requires Chain(s.graph, path, b.source, v) && forall k :: 0 <= k < |path| ==> IsViewAt(s.graph, path[k])
    requires path != [] ==> path[|path| - 1] < |rank| && rank[path[|path| - 1]] <= rank[last]
    ensures Chain(Bundled(s, b).graph, path, b.source, v)
    ensures forall k :: 0 <= k < |path| ==> IsViewAt(Bundled(s, b).graph, path[k])
    ensures PathOps(Bundled(s, b), path) == PathOps(s, path)
    decreases |path|
  {
    if path != [] {
      var n := |path| - 1;
      assert IsViewAt(s.graph, path[n]);
      var node := s.graph.nodes[path[n]];
      var u := node.inputs[0].value;
      assert s.graph.ReadsAt(path[n], 0, u) && node.Reads(u);
      if u == b.v {
        ReaderRanksHigher(s.graph, rank, last, path[n], u);
      }
      if n > 0 {
        assert IsViewAt(s.graph, path[n - 1]);
        assert s.graph.Edge(path[n - 1], path[n]);
      }
      NodeStays(s, b, path[n]);
      hide OpsOf, Good, InBounds, Bundled;
      ChainStays(s, b, rank, last, path[..n], u);
      PathOpsStay(s, Bundled(s, b), path);
    }
  }

  lemma NodeStays(s: Snapshot, b: Bundle, n: NodeId)
    requires InBounds(s) && b.source != b.v && b.v < |s.values| && IsViewAt(s.graph, n)
    requires s.graph.nodes[n].inputs[0].value != b.v
    ensures IsViewAt(Bundled(s, b).graph, n)
    ensures Bundled(s, b).graph.nodes[n].inputs[0] == s.graph.nodes[n].inputs[0]
    ensures Bundled(s, b).graph.nodes[n].outputs == s.graph.nodes[n].outputs
    ensures OpsOf(Bundled(s, b), Bundled(s, b).graph.nodes[n]) == OpsOf(s, s.graph.nodes[n])
  {
    BundledNode(s, b, n);
    var node := s.graph.nodes[n];
    assert s.graph.ReadsAt(n, 0, node.inputs[0].value);
    assert DefinesAt(s.graph, (n, 0), node.outputs[0]);
  }

  lemma PathOpsStay(s: Snapshot, t: Snapshot, path: seq<NodeId>)
    requires path != [] && forall k :: 0 <= k < |path| ==> IsViewAt(s.graph, path[k]) && IsViewAt(t.graph, path[k])
    requires PathOps(t, path[..|path| - 1]) == PathOps(s, path[..|path| - 1])
    requires IsViewAt(s.graph, path[|path| - 1]) && IsViewAt(t.graph, path[|path| - 1])
    requires OpsOf(t, t.graph.nodes[path[|path| - 1]]) == OpsOf(s, s.graph.nodes[path[|path| - 1]])
    ensures PathOps(t, path) == PathOps(s, path)
  {
  }

  lemma WholeChainStays(s: Snapshot, b: Bundle)
    requires Good(s) && Bundles(s, b)
    ensures Chain(Bundled(s, b).graph, b.path, b.source, b.v)
    ensures forall k :: 0 <= k < |b.path| ==> IsViewAt(Bundled(s, b).graph, b.path[k])
    ensures PathOps(Bundled(s, b), b.path) == b.op.ops
  {
    hide Bundled, Chain, PathOps;
    BundleInBounds(s, b);
    var rank: seq<nat> :| s.graph.Ranked(rank);
    ChainIsRanked(s.graph, rank, b.path, b.source, b.v);
    assert IsViewAt(s.graph, b.path[|b.path| - 1]);
    ChainStays(s, b, rank, b.path[|b.path| - 1], b.path, b.v);
  }

  /** After the step the new value equals the chain's end. */
  lemma NewValueMeans<T(!new)>(s: Snapshot, b: Bundle, m: Meaning<T>, env: Env<T>)
    requires Good(s) && Bundles(s, b) && Solves(Bundled(s, b), m, env)
    ensures env(|s.values|) == env(b.v)
  {
    hide Chain, PathOps, Good, Bundled, OpsOf;
    BundleInBounds(s, b);
    NewNodeStays(s, b);
    var t, id := Bundled(s, b), |s.graph.nodes|;
    assert t.graph.Computes(id);
    NewNodeHolds(t, s, b, m, env);
    WholeChainStays(s, b);
    ChainMeans(t, m, env, b.path, b.source, b.v);
  }

  lemma NewNodeHolds<T(!new)>(t: Snapshot, s: Snapshot, b: Bundle, m: Meaning<T>, env: Env<T>)
    requires t.graph.Computes(|s.graph.nodes|) && t.graph.nodes[|s.graph.nodes|] == NewNode(s, b)
    requires (b.op.Reinterpret? || b.op.Contiguous?) && Solves(t, m, env)
    ensures env(|s.values|) == Applied(m, b.op.ops, env(b.source))
  {
    assert NodeHolds(t, m, env, t.graph.nodes[|s.graph.nodes|]);
  }

  /** Every solution after the step is one before it. */
  lemma StepBack<T(!new)>(s: Snapshot, b: Bundle, m: Meaning<T>, env: Env<T>)
    requires Good(s) && Bundles(s, b) && Solves(Bundled(s, b), m, env)
    ensures Solves(s, m, env) && env(|s.values|) == env(b.v)
  {
    BundleInBounds(s, b);
    NewNodeStays(s, b);
    NewValueMeans(s, b, m, env);
    var t := Bundled(s, b);
    hide Bundled, Bundles, NodeHolds;
    forall n: NodeId | s.graph.Computes(n) ensures NodeHolds(s, m, env, s.graph.nodes[n]) {
      BundledNode(s, b, n);
      assert t.graph.Computes(n);
      NodeKeepsMeaning(s, b, m, env, n);
    }
  }

  function With<T>(env: Env<T>, v: ValueId, x: T): Env<T> {
    (u: ValueId) => if u == v then x else env(u)
  }

  /** Every solution before the step extends to one after it. */
  lemma StepForward<T(!new)>(s: Snapshot, b: Bundle, m: Meaning<T>, env: Env<T>)
    requires Good(s) && Bundles(s, b) && Solves(s, m, env)
    ensures Solves(Bundled(s, b), m, With(env, |s.values|, env(b.v)))
  {
    BundleInBounds(s, b);
    NewNodeStays(s, b);
    var t, id := Bundled(s, b), |s.graph.nodes|;
    var env' := With(env, |s.values|, env(b.v));
    forall n: NodeId | t.graph.Computes(n) ensures NodeHolds(t, m, env', t.graph.nodes[n]) {
      if n == id {
        ChainMeans(s, m, env, b.path, b.source, b.v);
        assert t.graph.nodes[n] == NewNode(s, b);
      } else {
        BundledNode(s, b, n);
        assert s.graph.Computes(n) && NodeHolds(s, m, env, s.graph.nodes[n]);
        OldNodeHolds(s, m, env, env', n);
        NodeKeepsMeaning(s, b, m, env', n);
      }
    }
  }

  /** A node does not see values that are not there yet. */
  lemma OldNodeHolds<T(!new)>(s: Snapshot, m: Meaning<T>, env: Env<T>, env': Env<T>, n: NodeId)
    requires InBounds(s) && s.graph.Computes(n) && NodeHolds(s, m, env, s.graph.nodes[n])
    requires forall v: ValueId :: v < |s.values| ==> env'(v) == env(v)
    ensures NodeHolds(s, m, env', s.graph.nodes[n])
  {
    var node := s.graph.nodes[n];
    forall i: nat | i < |node.inputs| && node.inputs[i].Some? ensures node.inputs[i].value < |s.values| {
      assert s.graph.ReadsAt(n, i, node.inputs[i].value);
    }
    forall j: nat | j < |node.outputs| ensures node.outputs[j] < |s.values| {
      assert DefinesAt(s.graph, (n, j), node.outputs[j]);
    }
    assert Arguments(env', node.inputs) == Arguments(env, node.inputs);
  }

  // ----- a step keeps the graph well-formed -----

  /** The new node ranks with the chain's last one. */
  lemma StepKeepsRanked(s: Snapshot, b: Bundle, rank: seq<nat>)
    requires Good(s) && Bundles(s, b) && s.graph.Ranked(rank)
    ensures Bundled(s, b).graph.Ranked(rank + [rank[b.path[|b.path| - 1]]])
  {
    BundleInBounds(s, b);
    ChainIsRanked(s.graph, rank, b.path, b.source, b.v);
    NewNodeStays(s, b);
    var t, rank' := Bundled(s, b).graph, rank + [rank[b.path[|b.path| - 1]]];
    hide Bundled, Bundles, Chain, Good;
    forall x: NodeId, y: NodeId | t.Edge(x, y) ensures rank'[x] < rank'[y] {
      var u: ValueId :| u in t.nodes[x].outputs && t.nodes[y].Reads(u);
      var j: nat :| j < |t.nodes[x].outputs| && t.nodes[x].outputs[j] == u;
      var i: nat :| i < |t.nodes[y].inputs| && t.nodes[y].inputs[i] == Some(u);
      assert DefinesAt(t, (x, j), u) && t.ReadsAt(y, i, u);
      EdgeKeepsRank(s, b, rank, x, j, y, i, u);
    }
  }

  lemma EdgeFrom(g: Graph, at: Place, y: NodeId, i: nat, u: ValueId)
    requires DefinesAt(g, at, u) && g.ReadsAt(y, i, u)
    ensures g.Edge(at.0, y)
  {
    assert g.nodes[y].inputs[i] == Some(u) && g.nodes[at.0].outputs[at.1] == u;
    assert u in g.nodes[at.0].outputs && g.nodes[y].Reads(u);
  }

  lemma EdgeKeepsRank(s: Snapshot, b: Bundle, rank: seq<nat>, x: NodeId, j: nat, y: NodeId, i: nat, u: ValueId)
    requires Good(s) && Bundles(s, b) && s.graph.Ranked(rank) && b.source != b.v && b.v < |s.values| && b.source < |s.values|
    requires DefinesAt(Bundled(s, b).graph, (x, j), u) && Bundled(s, b).graph.ReadsAt(y, i, u)
    ensures var last := b.path[|b.path| - 1];
            && x <= |rank| && y <= |rank| && last < |rank|
            && (if x < |rank| then rank[x] else rank[last]) < (if y < |rank| then rank[y] else rank[last])
  {
    var n, first, last := |s.graph.nodes|, b.path[0], b.path[|b.path| - 1];
    ChainIsRanked(s.graph, rank, b.path, b.source, b.v);
    BundledDefines(s, b, (x, j), u);
    BundledReads(s, b, y, i, u);
    hide Bundled, Bundles, Chain, Good;
    if y == n {
      assert x < n && u == b.source;
      assert s.graph.Edge(x, first);
    } else if x == n {
      assert s.graph.ReadsAt(y, i, b.v) by {
        assert u == |s.values|;
        ReadsBelow(s, y, i, u);
      }
      assert s.graph.Edge(last, y);
    } else {
      DefinesBelow(s, (x, j), u);
      EdgeFrom(s.graph, (x, j), y, i, u);
    }
  }

  lemma ReadsBelow(s: Snapshot, n: NodeId, i: nat, v: ValueId)
    requires Good(s)
    ensures s.graph.ReadsAt(n, i, v) ==> v < |s.values|
  {
  }

  lemma DefinesBelow(s: Snapshot, at: Place, v: ValueId)
    requires Good(s)
    ensures DefinesAt(s.graph, at, v) ==> v < |s.values|
  {
  }

  lemma StepKeepsClosed(s: Snapshot, b: Bundle)
    requires Good(s) && Bundles(s, b)
    ensures Bundled(s, b).graph.Closed()
  {
    BundleInBounds(s, b);
    NewNodeStays(s, b);
    var t, id := Bundled(s, b).graph, |s.graph.nodes|;
    var rank: seq<nat> :| s.graph.Ranked(rank);
    ChainIsRanked(s.graph, rank, b.path, b.source, b.v);
    assert s.graph.Uses(b.path[0], b.source);
    assert t.Defines(id, |s.values|);
    forall n: NodeId, v: ValueId | t.Uses(n, v) ensures v in t.initializers || exists d: NodeId :: t.Defines(d, v) {
      var i: nat :| i < |t.nodes[n].inputs| && t.nodes[n].inputs[i] == Some(v);
      BundledReads(s, b, n, i, v);
      if v != |s.values| {
        var reader := if n == id then b.path[0] else n;
        assert s.graph.Uses(reader, v);
        if v !in s.graph.initializers {
          var d: NodeId :| s.graph.Defines(d, v);
          BundledNode(s, b, d);
          assert t.Defines(d, v);
        }
      }
    }
  }

  lemma StepKeepsSingleDefinition(s: Snapshot, b: Bundle)
    requires Good(s) && Bundles(s, b)
    ensures Bundled(s, b).graph.SingleDefinition()
  {
    BundleInBounds(s, b);
    NewNodeStays(s, b);
    var t, id := Bundled(s, b).graph, |s.graph.nodes|;
    forall x: NodeId, y: NodeId, v: ValueId | t.Defines(x, v) && t.Defines(y, v) ensures x == y {
      DefinesBefore(s, b, x, v);
      DefinesBefore(s, b, y, v);
    }
    forall x: NodeId, i, j | t.Live(x) && 0 <= i < j < |t.nodes[x].outputs| ensures t.nodes[x].outputs[i] != t.nodes[x].outputs[j] {
      if x < id {
        BundledNode(s, b, x);
      }
    }
  }

  lemma DefinesBefore(s: Snapshot, b: Bundle, n: NodeId, v: ValueId)
    requires InBounds(s) && b.source != b.v && Bundled(s, b).graph.Defines(n, v)
    ensures (s.graph.Defines(n, v) && v < |s.values|) || (n == |s.graph.nodes| && v == |s.values|)
  {
    var j: nat :| j < |Bundled(s, b).graph.nodes[n].outputs| && Bundled(s, b).graph.nodes[n].outputs[j] == v;
    BundledDefines(s, b, (n, j), v);
  }

  lemma StepKeepsGood(s: Snapshot, b: Bundle)
    requires Good(s) && Bundles(s, b)
    ensures Good(Bundled(s, b))
  {
    var rank: seq<nat> :| s.graph.Ranked(rank);
    StepKeepsRanked(s, b, rank);
    StepKeepsClosed(s, b);
    StepKeepsSingleDefinition(s, b);
    StepKeepsViews(s, b);
  }

  lemma StepKeepsViews(s: Snapshot, b: Bundle)
    requires Good(s) && Bundles(s, b)
    ensures PlainViews(Bundled(s, b).graph) && InBounds(Bundled(s, b))
  {
    BundleInBounds(s, b);
    NewNodeStays(s, b);
    var t := Bundled(s, b);
    forall n: NodeId | t.graph.Live(n)
      ensures IsReshapeOrTranspose(t.graph.nodes[n]) ==> IsView(t.graph.nodes[n])
      ensures IsReinterpretOrContiguous(t.graph.nodes[n]) ==> IsView(t.graph.nodes[n]) && |t.graph.nodes[n].inputs| == 1
    {
      if n < |s.graph.nodes| {
        BundledNode(s, b, n);
        assert s.graph.Live(n);
      }
    }
    forall n: NodeId, i: nat, v: ValueId | t.graph.ReadsAt(n, i, v) ensures v < |t.values| {
      BundledReads(s, b, n, i, v);
    }
    forall at: Place, v: ValueId | DefinesAt(t.graph, at, v) ensures v < |t.values| {
      BundledDefines(s, b, at, v);
    }
  }

  // ----- all steps -----

  /** The value output marker n hands out. */
  function OutputValue<T>(s: Snapshot, env: Env<T>, n: NodeId): Option<T> {
    if s.graph.Live(n) && s.graph.nodes[n].inputs != [] && s.graph.nodes[n].inputs[0].Some? then
      Some(env(s.graph.nodes[n].inputs[0].value))
    else None
  }

  lemma StepKeepsOutput<T(!new)>(s: Snapshot, b: Bundle, env: Env<T>, n: NodeId)
    requires Good(s) && Bundles(s, b) && n < |s.graph.nodes| && env(|s.values|) == env(b.v)
    ensures OutputValue(Bundled(s, b), env, n) == OutputValue(s, env, n)
    ensures |s.graph.nodes| <= |Bundled(s, b).graph.nodes| && |s.values| <= |Bundled(s, b).values|
  {
    BundleInBounds(s, b);
    NewNodeStays(s, b);
    BundledNode(s, b, n);
  }

  lemma {:induction false} StepsBack<T(!new)>(trace: seq<Snapshot>, m: Meaning<T>, env: Env<T>, n: NodeId)
    requires Steps(trace) && Good(trace[0]) && Solves(trace[|trace| - 1], m, env) && n < |trace[0].graph.nodes|
    ensures Good(trace[|trace| - 1]) && |trace[0].graph.nodes| <= |trace[|trace| - 1].graph.nodes|
    ensures |trace[0].values| <= |trace[|trace| - 1].values|
    ensures Solves(trace[0], m, env) && OutputValue(trace[|trace| - 1], env, n) == OutputValue(trace[0], env, n)
    decreases |trace|
  {
    hide Bundled, Bundles, Good, Solves;
    var k := |trace| - 1;
    if k > 0 {
      assert Step(trace[k - 1], trace[k]);
      StepsKeepGood(trace[..k]);
      var b: Bundle :| Bundles(trace[k - 1], b) && trace[k] == Bundled(trace[k - 1], b);
      StepBack(trace[k - 1], b, m, env);
      StepKeepsGood(trace[k - 1], b);
      StepsBack(trace[..k], m, env, n);
      StepKeepsOutput(trace[k - 1], b, env, n);
    }
  }

  lemma {:induction false} StepsKeepGood(trace: seq<Snapshot>)
    requires Steps(trace) && Good(trace[0])
    ensures Good(trace[|trace| - 1])
    decreases |trace|
  {
    var k := |trace| - 1;
    if k > 0 {
      assert Step(trace[k - 1], trace[k]);
      var b: Bundle :| Bundles(trace[k - 1], b) && trace[k] == Bundled(trace[k - 1], b);
      StepsKeepGood(trace[..k]);
      StepKeepsGood(trace[k - 1], b);
    }
  }

  lemma BundledValues(s: Snapshot, b: Bundle)
    ensures |Bundled(s, b).values| == |s.values| + 1
  {
  }

  lemma {:induction false} StepsForward<T(!new)>(trace: seq<Snapshot>, m: Meaning<T>, env: Env<T>) returns (env': Env<T>)
    requires Steps(trace) && Good(trace[0]) && Solves(trace[0], m, env)
    ensures |trace[0].values| <= |trace[|trace| - 1].values|
    ensures Solves(trace[|trace| - 1], m, env') && forall v: ValueId :: v < |trace[0].values| ==> env'(v) == env(v)
    decreases |trace|
  {
    hide Bundled, Bundles, Good, Solves;
    var k := |trace| - 1;
    env' := env;
    if k > 0 {
      assert Step(trace[k - 1], trace[k]);
      var b: Bundle :| Bundles(trace[k - 1], b) && trace[k] == Bundled(trace[k - 1], b);
      var before := StepsForward(trace[..k], m, env);
      StepsKeepGood(trace[..k]);
      BundledValues(trace[k - 1], b);
      StepForward(trace[k - 1], b, m, before);
      env' := With(before, |trace[k - 1].values|, before(b.v));
    }
  }

  // ----- an acyclic graph computes one thing -----

  /** What an evaluation starts from: initial tensors and what markers hand in. */
  ghost predicate Given(g: Graph, v: ValueId) {
    v in g.initializers || exists n: NodeId :: g.Defines(n, v) && g.nodes[n].IsDummy()
  }

  /** Two solutions that agree on what is given agree on everything that is read. */
  lemma {:induction false} SolutionsAgree<T(!new)>(s: Snapshot, m: Meaning<T>, a: Env<T>, b: Env<T>, rank: seq<nat>,
                      n: NodeId, i: nat)
    requires s.graph.Closed() && s.graph.Ranked(rank) && Solves(s, m, a) && Solves(s, m, b)
    requires forall v: ValueId :: Given(s.graph, v) ==> a(v) == b(v)
    requires s.graph.Live(n) && i < |s.graph.nodes[n].inputs| && s.graph.nodes[n].inputs[i].Some?
    ensures a(s.graph.nodes[n].inputs[i].value) == b(s.graph.nodes[n].inputs[i].value)
    decreases rank[n]
  {
    var v := s.graph.nodes[n].inputs[i].value;
    if !Given(s.graph, v) {
      assert s.graph.Uses(n, v);
      var d: NodeId :| s.graph.Defines(d, v);
      var node := s.graph.nodes[d];
      assert s.graph.Computes(d) && s.graph.Edge(d, n);
      assert NodeHolds(s, m, a, node) && NodeHolds(s, m, b, node);
      forall k: nat | k < |node.inputs| && node.inputs[k].Some? ensures a(node.inputs[k].value) == b(node.inputs[k].value) {
        SolutionsAgree(s, m, a, b, rank, d, k);
      }
      assert Arguments(a, node.inputs) == Arguments(b, node.inputs);
      var j: nat :| j < |node.outputs| && node.outputs[j] == v;
    }
  }

  lemma OutputsAgree<T(!new)>(s: Snapshot, m: Meaning<T>, a: Env<T>, b: Env<T>, n: NodeId)
    requires Good(s) && Solves(s, m, a) && Solves(s, m, b)
    requires forall v: ValueId :: Given(s.graph, v) ==> a(v) == b(v)
    ensures OutputValue(s, a, n) == OutputValue(s, b, n)
  {
    var rank: seq<nat> :| s.graph.Ranked(rank);
    if OutputValue(s, a, n).Some? {
      SolutionsAgree(s, m, a, b, rank, n, 0);
    }
  }

  /** Rewriting chains of views leaves every graph output as it was: whatever the operators
      mean, and however the two graphs are evaluated from the same inputs and initial tensors. */
  lemma RewritingKeepsOutputs<T(!new)>(s: Snapshot, t: Snapshot, m: Meaning<T>, before: Env<T>, after: Env<T>, n: NodeId)
    requires Good(s) && Rewritten(s, t) && Solves(s, m, before) && Solves(t, m, after)
    requires forall v: ValueId :: Given(s.graph, v) ==> after(v) == before(v)
    requires n < |s.graph.nodes|
    ensures Good(t) && OutputValue(t, after, n) == OutputValue(s, before, n)
  {
    hide Solves, Given;
    var trace: seq<Snapshot> :| Steps(trace) && trace[0] == s && trace[|trace| - 1] == t;
    StepsBack(trace, m, after, n);
    OutputsAgree(s, m, after, before, n);
  }

  /** Any evaluation of the graph before the rewriting extends to one after it. */
  lemma RewritingKeepsEvaluations<T(!new)>(s: Snapshot, t: Snapshot, m: Meaning<T>, env: Env<T>) returns (env': Env<T>)
    requires Good(s) && Rewritten(s, t) && Solves(s, m, env)
    ensures Solves(t, m, env') && forall v: ValueId :: v < |s.values| ==> env'(v) == env(v)
  {
    var trace: seq<Snapshot> :| Steps(trace) && trace[0] == s && trace[|trace| - 1] == t;
    env' := StepsForward(trace, m, env);
  }
}
