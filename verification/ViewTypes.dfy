/** The dims of view nodes: the views of a chain fit together, and rewriting keeps dims right. */
module ViewTypes {
  import opened Options
  import opened Arithmetic
  import opened Permutations
  import opened GraphModel
  import opened UseDefIndex
  import opened ViewChains
  import opened ViewMeaning

  /** The axes that a transposition takes in turn: all of them backwards if none are named. */
  function Axes(perm: Option<seq<nat>>, rank: nat): (r: seq<nat>)
    ensures perm.Some? ==> r == perm.value
    ensures perm.None? ==> |r| == rank && forall i :: 0 <= i < rank ==> r[i] == rank - 1 - i
  {
    match perm
    case Some(p) => p
    case None => seq(rank, i requires 0 <= i < rank => rank - 1 - i)
  }

  /** The dims after a reshape, a transposition or a broadcast of a tensor of dims d. */
  ghost function Reshaped(d: seq<nat>, before: seq<nat>, after: seq<nat>): Option<seq<nat>> {
    if before == d && Product(after) == Product(d) then Some(after) else None
  }

  ghost function Transposed(d: seq<nat>, perm: Option<seq<nat>>): Option<seq<nat>> {
    var axes := Axes(perm, |d|);
    if IsPermutation(axes, |d|) then Some(Permute(d, axes)) else None
  }

  ghost function Broadcasted(d: seq<nat>, before: seq<nat>, after: seq<nat>): Option<seq<nat>> {
    if before == d then Some(after) else None
  }

  ghost function InferredOnce(d: seq<nat>, view: View): Option<seq<nat>> {
    match view
    case ReshapeView(before, after) => Reshaped(d, before, after)
    case TransposeView(perm) => Transposed(d, perm)
    case BroadcastView(before, after) => Broadcasted(d, before, after)
  }

  /** The dims after some views, or `None` if one of them does not fit. */
  ghost function Inferred(d: seq<nat>, ops: seq<View>): Option<seq<nat>>
    decreases |ops|
  {
    if ops == [] then Some(d)
    else
      match Inferred(d, ops[..|ops| - 1])
      case None => None
      case Some(mid) => InferredOnce(mid, ops[|ops| - 1])
  }

  /** A view node's output has the dims that the node makes of its input's. */
  ghost predicate Fits(s: Snapshot, node: Node)
    requires IsView(node)
  {
    var d, d' := Dims(s, node.inputs[0].value), Dims(s, node.outputs[0]);
    match node.op
    case Reshape => Product(d) == Product(d')
    case Transpose(perm) => Transposed(d, perm) == Some(d')
    case Reinterpret(ops) => Inferred(d, ops) == Some(d')
    case Contiguous(ops) => Inferred(d, ops) == Some(d')
  }

  ghost predicate Typed(s: Snapshot) {
    forall n: NodeId :: IsViewAt(s.graph, n) ==> Fits(s, s.graph.nodes[n])
  }

  lemma {:induction false} InferredInTurn(d: seq<nat>, a: seq<View>, mid: seq<nat>, b: seq<View>)
    requires Inferred(d, a) == Some(mid)
    ensures Inferred(d, a + b) == Inferred(mid, b)
    decreases |b|
  {
    if b == [] {
      assert a + b == a;
    } else {
      InferredInTurn(d, a, mid, b[..|b| - 1]);
      assert (a + b)[..|a + b| - 1] == a + b[..|b| - 1];
    }
  }

  lemma InferredAlone(d: seq<nat>, view: View)
    ensures Inferred(d, [view]) == InferredOnce(d, view)
  {
    assert [view][..0] == [];
  }

  /** The views of a node take the dims of its input to those of its output. */
  lemma OpsFit(s: Snapshot, node: Node)
    requires IsView(node) && Fits(s, node)
    ensures Inferred(Dims(s, node.inputs[0].value), OpsOf(s, node)) == Some(Dims(s, node.outputs[0]))
  {
    var d := Dims(s, node.inputs[0].value);
    if node.op.Reshape? {
      InferredAlone(d, ReshapeView(d, Dims(s, node.outputs[0])));
    } else if node.op.Transpose? {
      InferredAlone(d, TransposeView(node.op.perm));
    }
  }

  /** The views of a chain fit together, from the dims of its source to those of its end. */
  lemma {:induction false} ChainFits(s: Snapshot, path: seq<NodeId>, source: ValueId, v: ValueId)
    requires Typed(s) && Chain(s.graph, path, source, v) && forall k :: 0 <= k < |path| ==> IsViewAt(s.graph, path[k])
    ensures Inferred(Dims(s, source), PathOps(s, path)) == Some(Dims(s, v))
    decreases |path|
  {
    if path != [] {
      var n := |path| - 1;
      assert IsViewAt(s.graph, path[n]);
      var node := s.graph.nodes[path[n]];
      var u := node.inputs[0].value;
      ChainFits(s, path[..n], source, u);
      OpsFit(s, node);
      InferredInTurn(Dims(s, source), PathOps(s, path[..n]), Dims(s, u), OpsOf(s, node));
    }
  }

  /** A step keeps every view node's dims right, and gives the new node right ones. */
  lemma StepKeepsTyped(s: Snapshot, b: Bundle)
    requires Good(s) && Typed(s) && Bundles(s, b)
    ensures Typed(Bundled(s, b))
  {
    BundleInBounds(s, b);
    NewNodeStays(s, b);
    ChainFits(s, b.path, b.source, b.v);
    var t := Bundled(s, b);
    forall n: NodeId | IsViewAt(t.graph, n) ensures Fits(t, t.graph.nodes[n]) {
      if n < |s.graph.nodes| {
        OldNodeFits(s, b, n);
      } else {
        assert t.graph.nodes[n] == NewNode(s, b);
      }
    }
  }

  lemma OldNodeFits(s: Snapshot, b: Bundle, n: NodeId)
    requires InBounds(s) && Typed(s) && b.source != b.v && b.v < |s.values| && n < |s.graph.nodes|
    requires IsViewAt(Bundled(s, b).graph, n)
    ensures Fits(Bundled(s, b), Bundled(s, b).graph.nodes[n])
  {
    BundledNode(s, b, n);
    var node := s.graph.nodes[n];
    assert IsViewAt(s.graph, n) && Fits(s, node);
    assert s.graph.ReadsAt(n, 0, node.inputs[0].value);
    assert DefinesAt(s.graph, (n, 0), node.outputs[0]);
    hide Inferred, Transposed, Product;
  }

  /** Rewriting chains of views keeps the dims of all view nodes right. */
  lemma {:induction false} StepsKeepTyped(trace: seq<Snapshot>)
    requires Steps(trace) && Good(trace[0]) && Typed(trace[0])
    ensures Good(trace[|trace| - 1]) && Typed(trace[|trace| - 1])
    decreases |trace|
  {
    hide Good, Typed, Bundled, Bundles;
    var k := |trace| - 1;
    if k > 0 {
      StepsKeepTyped(trace[..k]);
      assert Step(trace[k - 1], trace[k]);
      var b: Bundle :| Bundles(trace[k - 1], b) && trace[k] == Bundled(trace[k - 1], b);
      StepKeepsTyped(trace[k - 1], b);
      StepKeepsGood(trace[k - 1], b);
    }
  }

  lemma RewritingKeepsTyped(s: Snapshot, t: Snapshot)
    requires Good(s) && Typed(s) && Rewritten(s, t)
    ensures Typed(t)
  {
    var trace: seq<Snapshot> :| Steps(trace) && trace[0] == s && trace[|trace| - 1] == t;
    StepsKeepTyped(trace);
  }
}
