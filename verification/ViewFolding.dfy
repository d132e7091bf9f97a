/** The passes that turn chains of reshapes and transposes into one node, and fold chains that
    copy. */
module ViewFolding {
  import opened Options
  import opened GraphModel
  import opened TopologicalOrder
  import opened UseDefIndex
  import opened GraphIndex
  import opened ViewChains
  import opened ViewMeaning
  import opened GraphRewriting

  /** What the passes need of the graph and keep; the deletion after a pass keeps it too. */
  ghost predicate Ready(op: SimpleGraphOp)
    reads op
  {
    op.Valid() && Tracks(op.graph, op.value2defined) && OutputsNamed(op.graph) && Good(op.State())
  }

  /** The views of the nodes on a path, in order. */
  method BundleOps(op: SimpleGraphOp, path: seq<NodeId>) returns (ops: seq<View>)
    requires forall k :: 0 <= k < |path| ==> IsViewAt(op.graph, path[k])
    ensures ops == PathOps(op.State(), path)
  {
    ops := [];
    assert path[..0] == [];
    for k := 0 to |path|
      invariant ops == PathOps(op.State(), path[..k])
    {
      assert IsViewAt(op.graph, path[k]);
      var node := op.graph.nodes[path[k]];
      var views := match node.op
        case Reshape => [ReshapeView(Dims(op.State(), node.inputs[0].value), Dims(op.State(), node.outputs[0]))]
        case Transpose(perm) => [TransposeView(perm)]
        case Reinterpret(ops) => ops
        case Contiguous(ops) => ops;
      assert path[..k + 1][..k] == path[..k];
      ops := ops + views;
    }
    assert path[..|path|] == path;
  }

  /** The bundle's node reads a value that is there and defines a new one. */
  lemma NewNodeExtends(s: Snapshot, b: Bundle, defined: DefIndex)
    requires Good(s) && Bundles(s, b) && Tracks(s.graph, defined)
    ensures b.v < |s.values| && b.source != b.v
    ensures Extends(s.graph, defined, NewNode(s, b)) && |s.values| !in s.graph.initializers
  {
    BundleInBounds(s, b);
    var rank: seq<nat> :| s.graph.Ranked(rank);
    ChainIsRanked(s.graph, rank, b.path, b.source, b.v);
    var n := b.path[0];
    var i: nat :| i < |s.graph.nodes[n].inputs| && s.graph.nodes[n].inputs[i] == Some(b.source);
    assert s.graph.ReadsAt(n, i, b.source);
    forall n: NodeId ensures !s.graph.Defines(n, |s.values|) {
      if s.graph.Defines(n, |s.values|) {
        var j: nat :| j < |s.graph.nodes[n].outputs| && s.graph.nodes[n].outputs[j] == |s.values|;
        assert DefinesAt(s.graph, (n, j), |s.values|);
      }
    }
  }

  lemma NewNodeIsTracked(s: Snapshot, b: Bundle, defined: DefIndex, defined': DefIndex)
    requires Tracks(s.graph, defined) && |s.values| !in s.graph.initializers
    requires Recorded(defined, defined', [|s.values|], |s.graph.nodes|, 1)
    requires Sound(Added(s.graph, NewNode(s, b)), defined') && (b.op.Reinterpret? || b.op.Contiguous?)
    ensures Tracks(Added(s.graph, NewNode(s, b)), defined')
    ensures Resolved(Added(s.graph, NewNode(s, b)), defined', |s.values|)
  {
    var g := Added(s.graph, NewNode(s, b));
    assert DefinesAt(g, (|s.graph.nodes|, 0), |s.values|) && g.Computes(|s.graph.nodes|);
  }

  /** Adds the bundle's node and turns the readers of the chain's end to it. */
  method Replace(op: SimpleGraphOp, b: Bundle)
    requires Ready(op) && Bundles(op.State(), b)
    modifies op
    ensures Ready(op) && op.State() == Bundled(old(op.State()), b)
  {
    ghost var before, definedBefore := op.State(), op.value2defined;
    NewNodeExtends(before, b, definedBefore);
    StepKeepsGood(before, b);
    assert b.op.Reinterpret? || b.op.Contiguous?;
    hide Good, Bundles, Sound, Extends, Recorded, Resolved;
    var newOutput := op.RegisterNewValue(op.values[b.v]);
    var id := op.RegisterNewNode(Node([Some(b.source)], [newOutput], b.op, false));
    assert op.graph == Added(before.graph, NewNode(before, b));
    NewNodeIsTracked(before, b, definedBefore, op.value2defined);
    op.ReplaceInputValue(b.v, newOutput);
  }

  // ----- reshapes and transposes -----

  /** Some reader of v is neither a reshape nor a transpose. */
  ghost predicate ReadOtherwise(g: Graph, v: ValueId) {
    exists n: NodeId, i: nat :: g.ReadsAt(n, i, v) && !IsReshapeOrTranspose(g.nodes[n])
  }

  method HasOtherReader(op: SimpleGraphOp, v: ValueId) returns (r: bool)
    requires op.Valid()
    ensures r <==> ReadOtherwise(op.graph, v)
  {
    if v !in op.value2used {
      forall n: NodeId, i: nat ensures !op.graph.ReadsAt(n, i, v) {
        assert !IndexedAt(op.value2used, n, i, v);
      }
      return false;
    }
    assert forall at: Place :: at in op.value2used[v] ==> IndexedAt(op.value2used, at.0, at.1, v) && op.graph.ReadsAt(at.0, at.1, v);
    r := exists at: Place :: at in op.value2used[v] && !IsReshapeOrTranspose(op.graph.nodes[at.0]);
    if ReadOtherwise(op.graph, v) {
      var n: NodeId, i: nat :| op.graph.ReadsAt(n, i, v) && !IsReshapeOrTranspose(op.graph.nodes[n]);
      assert IndexedAt(op.value2used, n, i, v);
      assert (n, i) in op.value2used[v];
    }
  }

  /** No reshape or transpose defines v. */
  ghost predicate DefinedOtherwise(g: Graph, v: ValueId) {
    forall at: Place :: DefinesAt(g, at, v) ==> !IsReshapeOrTranspose(g.nodes[at.0])
  }

  /** The chain that ends in node id, largest first, with its views. */
  method BundleReshapeAndTranspose(op: SimpleGraphOp, id: NodeId) returns (b: Bundle)
    requires Ready(op) && op.graph.Live(id) && IsReshapeOrTranspose(op.graph.nodes[id])
    ensures Bundles(op.State(), b) && b.op.Reinterpret? && b.v == op.graph.nodes[id].outputs[0]
    ensures DefinedOtherwise(op.graph, b.source)
    ensures forall n: NodeId :: n < |op.graph.nodes| && !op.graph.nodes[n].deleted && b.source in op.graph.nodes[n].outputs ==>
              !op.graph.nodes[n].op.Reshape? && !op.graph.nodes[n].op.Transpose?
  {
    assert IsViewAt(op.graph, id);
    var node := op.graph.nodes[id];
    assert op.graph.ReadsAt(id, 0, node.inputs[0].value);
    var source, chain := op.WalkChainBackward(node.inputs[0].value, (n: Node) => IsReshapeOrTranspose(n));
    var path := Backwards(chain) + [id];
    ChainAppend(op.graph, Backwards(chain), id, source, node.inputs[0].value);
    forall k | 0 <= k < |path| ensures IsViewAt(op.graph, path[k]) {
      ChainIsViews(op.graph, path, source, node.outputs[0], k);
    }
    var ops := BundleOps(op, path);
    b := Bundle(path, source, node.outputs[0], Reinterpret(ops));
    NoViewDefines(op.graph, source);
  }

  lemma NoViewDefines(g: Graph, v: ValueId)
    requires DefinedOtherwise(g, v)
    ensures forall n: NodeId :: n < |g.nodes| && !g.nodes[n].deleted && v in g.nodes[n].outputs ==>
              !g.nodes[n].op.Reshape? && !g.nodes[n].op.Transpose?
  {
    forall n: NodeId | g.Live(n) && v in g.nodes[n].outputs ensures !g.nodes[n].op.Reshape? && !g.nodes[n].op.Transpose? {
      var j :| 0 <= j < |g.nodes[n].outputs| && g.nodes[n].outputs[j] == v;
      assert DefinesAt(g, (n, j), v);
    }
  }

  /** Converts the chain that ends in one node, if its value is read otherwise. */
  method ConvertOne(op: SimpleGraphOp, id: NodeId)
    requires Ready(op) && op.graph.Live(id) && IsReshapeOrTranspose(op.graph.nodes[id])
    modifies op
    ensures Ready(op)
    ensures if ReadOtherwise(old(op.graph), old(op.graph).nodes[id].outputs[0])
            then exists b: Bundle :: Converts(old(op.State()), id, b) && op.State() == Bundled(old(op.State()), b)
            else op.State() == old(op.State())
  {
    assert IsViewAt(op.graph, id);
    var oldOutput := op.graph.nodes[id].outputs[0];
    var toBundle := HasOtherReader(op, oldOutput);
    if !toBundle {
      return;
    }
    var b := BundleReshapeAndTranspose(op, id);
    ghost var before := op.State();
    assert Converts(before, id, b);
    hide Bundled, Bundles, Good;
    Replace(op, b);
  }

  ghost predicate Converts(s: Snapshot, id: NodeId, b: Bundle)
    requires IsViewAt(s.graph, id)
  {
    Bundles(s, b) && b.op.Reinterpret? && b.v == s.graph.nodes[id].outputs[0] && DefinedOtherwise(s.graph, b.source)
  }

  /** The nodes listed are live reshapes and transposes. */
  ghost predicate ListsViews(g: Graph, ids: seq<NodeId>) {
    forall k :: 0 <= k < |ids| ==> g.Live(ids[k]) && IsReshapeOrTranspose(g.nodes[ids[k]]) && IsView(g.nodes[ids[k]])
  }

  /** The first k of the nodes listed are read by reshapes and transposes only. */
  ghost predicate Converted(g: Graph, ids: seq<NodeId>, k: nat)
    requires k <= |ids| && ListsViews(g, ids)
  {
    forall j :: 0 <= j < k ==> !ReadOtherwise(g, g.nodes[ids[j]].outputs[0])
  }

  lemma ConversionKeepsList(s: Snapshot, ids: seq<NodeId>, b: Bundle)
    requires Good(s) && Bundles(s, b) && ListsViews(s.graph, ids)
    ensures ListsViews(Bundled(s, b).graph, ids)
    ensures forall k :: 0 <= k < |ids| ==> Bundled(s, b).graph.nodes[ids[k]].outputs == s.graph.nodes[ids[k]].outputs
  {
    BundleInBounds(s, b);
    NewNodeStays(s, b);
    forall k | 0 <= k < |ids|
      ensures Bundled(s, b).graph.nodes[ids[k]].outputs == s.graph.nodes[ids[k]].outputs
      ensures ListsViews(Bundled(s, b).graph, [ids[k]])
    {
      BundledNode(s, b, ids[k]);
    }
    assert forall k :: 0 <= k < |ids| ==> ListsViews(Bundled(s, b).graph, [ids[k]]) && [ids[k]][0] == ids[k];
  }

  lemma ConversionKeepsCopies(s: Snapshot, b: Bundle)
    requires Good(s) && Bundles(s, b) && b.op.Reinterpret? && PlainCopies(s.graph)
    ensures PlainCopies(Bundled(s, b).graph)
  {
    BundleInBounds(s, b);
    NewNodeStays(s, b);
    forall n: NodeId | Bundled(s, b).graph.Live(n) && Bundled(s, b).graph.nodes[n].op.Contiguous?
      ensures Bundled(s, b).graph.nodes[n].op.ops == []
    {
      BundledNode(s, b, n);
      assert s.graph.Live(n);
    }
  }

  lemma ConversionKeepsConverted(s: Snapshot, ids: seq<NodeId>, k: nat, b: Bundle)
    requires Good(s) && ListsViews(s.graph, ids) && k < |ids| && Converted(s.graph, ids, k) && Converts(s, ids[k], b)
    requires ListsViews(Bundled(s, b).graph, ids)
    requires forall k :: 0 <= k < |ids| ==> Bundled(s, b).graph.nodes[ids[k]].outputs == s.graph.nodes[ids[k]].outputs
    ensures Converted(Bundled(s, b).graph, ids, k + 1)
  {
    BundleInBounds(s, b);
    NewNodeStays(s, b);
    var t := Bundled(s, b).graph;
    forall j: nat, n: NodeId, i: nat | j <= k && t.ReadsAt(n, i, s.graph.nodes[ids[j]].outputs[0])
      ensures IsReshapeOrTranspose(t.nodes[n])
    {
      ReaderStaysView(s, ids, k, b, j, n, i);
    }
  }

  lemma ReaderStaysView(s: Snapshot, ids: seq<NodeId>, k: nat, b: Bundle, j: nat, n: NodeId, i: nat)
    requires Good(s) && ListsViews(s.graph, ids) && j <= k < |ids| && Converted(s.graph, ids, k) && Converts(s, ids[k], b)
    requires Bundled(s, b).graph.ReadsAt(n, i, s.graph.nodes[ids[j]].outputs[0])
    ensures IsReshapeOrTranspose(Bundled(s, b).graph.nodes[n])
  {
    BundleInBounds(s, b);
    NewNodeStays(s, b);
    var v := s.graph.nodes[ids[j]].outputs[0];
    BundledReads(s, b, n, i, v);
    assert DefinesAt(s.graph, (ids[j], 0), v);
    assert v < |s.values|;
    assert n < |s.graph.nodes|;
    BundledNode(s, b, n);
    assert v != b.v && s.graph.ReadsAt(n, i, v);
    assert j != k;
    assert !ReadOtherwise(s.graph, v);
  }

  /** The nodes listed stand in a topological order. */
  ghost predicate ProducersFirst(g: Graph, ids: seq<NodeId>) {
    exists order: seq<NodeId> :: IsTopological(g, order) && forall i, j :: 0 <= i < j < |ids| ==> Before(order, ids[i], ids[j])
  }

  /** The nodes listed stand in the reverse of a topological order. */
  ghost predicate ConsumersFirst(g: Graph, ids: seq<NodeId>) {
    exists order: seq<NodeId> :: IsTopological(g, order) && forall i, j :: 0 <= i < j < |ids| ==> Before(order, ids[j], ids[i])
  }

  /** The reshapes and transposes, consumers first. */
  method SelectViews(g: Graph) returns (ids: seq<NodeId>)
    requires g.WellFormed() && PlainViews(g)
    ensures ListsViews(g, ids) && ConsumersFirst(g, ids)
    ensures forall n: NodeId :: g.Live(n) && IsReshapeOrTranspose(g.nodes[n]) ==> n in ids
  {
    var order := SimpleTopologicalOrder(g);
    ids := [];
    for k := |order| downto 0
      invariant ListsViews(g, ids) && forall n :: n in ids ==> n in order[k..]
      invariant forall i, j :: 0 <= i < j < |ids| ==> Before(order, ids[j], ids[i])
      invariant forall n: NodeId :: n in order[k..] && g.Live(n) && IsReshapeOrTranspose(g.nodes[n]) ==> n in ids
    {
      assert order[k] in order && g.Live(order[k]);
      assert order[k..] == [order[k]] + order[k + 1..];
      if IsReshapeOrTranspose(g.nodes[order[k]]) {
        AheadOfRest(order, k, ids);
        ids := ids + [order[k]];
      }
    }
    assert order[0..] == order;
    forall n: NodeId | g.Live(n) && IsReshapeOrTranspose(g.nodes[n]) ensures n in ids {
      assert g.Computes(n);
    }
  }

  lemma AheadOfRest(order: seq<NodeId>, k: nat, ids: seq<NodeId>)
    requires k < |order| && forall n :: n in ids ==> n in order[k + 1..]
    ensures forall i :: 0 <= i < |ids| ==> Before(order, order[k], ids[i])
  {
    forall i | 0 <= i < |ids| ensures Before(order, order[k], ids[i]) {
      assert ids[i] in ids;
      var j :| 0 <= j < |order[k + 1..]| && order[k + 1..][j] == ids[i];
      assert order[k + 1 + j] == ids[i];
    }
  }

  /** Converting the chain that ends in node id turns s into t. */
  ghost predicate ConvertedOnce(s: Snapshot, id: NodeId, t: Snapshot) {
    IsViewAt(s.graph, id) &&
    if ReadOtherwise(s.graph, s.graph.nodes[id].outputs[0]) then exists b: Bundle :: Converts(s, id, b) && t == Bundled(s, b)
    else t == s
  }

  /** The chains that end in the nodes listed are converted one after another. */
  ghost predicate ConvertsInOrder(trace: seq<Snapshot>, ids: seq<NodeId>) {
    |trace| == |ids| + 1 && forall k :: 0 <= k < |ids| ==> ConvertedOnce(trace[k], ids[k], trace[k + 1])
  }

  lemma OneMoreConverted(trace: seq<Snapshot>, ids: seq<NodeId>, k: nat, t: Snapshot)
    requires k < |ids| && ConvertsInOrder(trace, ids[..k]) && ConvertedOnce(trace[k], ids[k], t)
    ensures ConvertsInOrder(trace + [t], ids[..k + 1])
  {
  }

  lemma NothingConverted(s: Snapshot)
    ensures ConvertsInOrder([s], [])
  {
  }

  /** One step of the pass below. */
  method ConvertNext(op: SimpleGraphOp, ids: seq<NodeId>, k: nat, ghost start: Snapshot)
    requires Ready(op) && Rewritten(start, op.State())
    requires ListsViews(op.graph, ids) && k < |ids| && Converted(op.graph, ids, k)
    modifies op
    ensures Ready(op) && Rewritten(start, op.State()) && ConvertedOnce(old(op.State()), ids[k], op.State())
    ensures ListsViews(op.graph, ids) && Converted(op.graph, ids, k + 1)
    ensures PlainCopies(old(op.graph)) ==> PlainCopies(op.graph)
  {
    hide Bundled, Good, Rewritten, PlainCopies;
    ghost var before := op.State();
    ConvertOne(op, ids[k]);
    if ReadOtherwise(before.graph, before.graph.nodes[ids[k]].outputs[0]) {
      ghost var b: Bundle :| Converts(before, ids[k], b) && op.State() == Bundled(before, b);
      RewrittenFurther(start, before, b);
      ConversionKeepsList(before, ids, b);
      ConversionKeepsConverted(before, ids, k, b);
      if PlainCopies(before.graph) {
        ConversionKeepsCopies(before, b);
      }
    }
  }

  /** Reshapes and transposes alone read what reshapes and transposes define. */
  ghost predicate OnlyViewsReadViews(g: Graph) {
    forall n: NodeId :: IsViewAt(g, n) && IsReshapeOrTranspose(g.nodes[n]) ==> !ReadOtherwise(g, g.nodes[n].outputs[0])
  }

  /** In terms of the nodes: a reshape's or transpose's output is read by such nodes alone. */
  lemma ViewsAreReadByViews(g: Graph, n: NodeId, r: NodeId)
    requires PlainViews(g) && OnlyViewsReadViews(g) && n < |g.nodes| && r < |g.nodes| && !g.nodes[n].deleted && !g.nodes[r].deleted
    requires g.nodes[n].op.Reshape? || g.nodes[n].op.Transpose?
    ensures |g.nodes[n].outputs| == 1
    ensures Some(g.nodes[n].outputs[0]) in g.nodes[r].inputs ==> g.nodes[r].op.Reshape? || g.nodes[r].op.Transpose?
  {
    assert g.Live(n) && IsViewAt(g, n);
    if Some(g.nodes[n].outputs[0]) in g.nodes[r].inputs {
      var i :| 0 <= i < |g.nodes[r].inputs| && g.nodes[r].inputs[i] == Some(g.nodes[n].outputs[0]);
      assert g.ReadsAt(r, i, g.nodes[n].outputs[0]);
    }
  }

  /** No step adds a reshape or transpose. */
  lemma StepAddsNoView(s: Snapshot, b: Bundle, n: NodeId)
    requires Good(s) && Bundles(s, b) && Bundled(s, b).graph.Live(n) && IsReshapeOrTranspose(Bundled(s, b).graph.nodes[n])
    ensures s.graph.Live(n) && IsReshapeOrTranspose(s.graph.nodes[n])
    ensures s.graph.nodes[n].outputs == Bundled(s, b).graph.nodes[n].outputs
  {
    BundleInBounds(s, b);
    NewNodeStays(s, b);
    if n < |s.graph.nodes| {
      BundledNode(s, b, n);
    }
  }

  lemma {:induction false} StepsAddNoView(trace: seq<Snapshot>, n: NodeId)
    requires Steps(trace) && Good(trace[0])
    requires trace[|trace| - 1].graph.Live(n) && IsReshapeOrTranspose(trace[|trace| - 1].graph.nodes[n])
    ensures trace[0].graph.Live(n) && IsReshapeOrTranspose(trace[0].graph.nodes[n])
    ensures trace[0].graph.nodes[n].outputs == trace[|trace| - 1].graph.nodes[n].outputs
    decreases |trace|
  {
    hide Good, Bundles, Bundled;
    var k := |trace| - 1;
    if k > 0 {
      assert Step(trace[k - 1], trace[k]);
      StepsKeepGood(trace[..k]);
      var b: Bundle :| Bundles(trace[k - 1], b) && trace[k] == Bundled(trace[k - 1], b);
      StepAddsNoView(trace[k - 1], b, n);
      StepsAddNoView(trace[..k], n);
    }
  }

  lemma RewritingAddsNoView(s: Snapshot, t: Snapshot, n: NodeId)
    requires Rewritten(s, t) && Good(s) && t.graph.Live(n) && IsReshapeOrTranspose(t.graph.nodes[n])
    ensures s.graph.Live(n) && IsReshapeOrTranspose(s.graph.nodes[n]) && s.graph.nodes[n].outputs == t.graph.nodes[n].outputs
  {
    var trace: seq<Snapshot> :| Steps(trace) && trace[0] == s && trace[|trace| - 1] == t;
    StepsAddNoView(trace, n);
  }

  lemma ListedAreViews(g: Graph, ids: seq<NodeId>)
    requires ListsViews(g, ids)
    ensures Converted(g, ids, 0)
    ensures forall n: NodeId :: n in ids ==> g.Live(n) && (g.nodes[n].op.Reshape? || g.nodes[n].op.Transpose?)
  {
  }

  lemma AllConverted(s: Snapshot, t: Snapshot, ids: seq<NodeId>)
    requires Good(s) && Rewritten(s, t) && ListsViews(t.graph, ids) && Converted(t.graph, ids, |ids|)
    requires forall n: NodeId :: s.graph.Live(n) && IsReshapeOrTranspose(s.graph.nodes[n]) ==> n in ids
    ensures OnlyViewsReadViews(t.graph)
  {
    forall n: NodeId | IsViewAt(t.graph, n) && IsReshapeOrTranspose(t.graph.nodes[n])
      ensures !ReadOtherwise(t.graph, t.graph.nodes[n].outputs[0])
    {
      RewritingAddsNoView(s, t, n);
      var j :| 0 <= j < |ids| && ids[j] == n;
    }
  }

  /** Every chain of reshapes and transposes whose value is read otherwise is replaced by one
      reinterpret node; afterwards only reshapes and transposes read such values. */
  method ReinterpretConversion(op: SimpleGraphOp) returns (ghost ids: seq<NodeId>, ghost trace: seq<Snapshot>)
    requires Ready(op)
    modifies op
    ensures ConsumersFirst(old(op.graph), ids)
    ensures forall n: NodeId :: n in ids <==> old(op.graph).Live(n) && (old(op.graph).nodes[n].op.Reshape? || old(op.graph).nodes[n].op.Transpose?)
    ensures ConvertsInOrder(trace, ids) && trace[0] == old(op.State()) && trace[|ids|] == op.State()
    ensures Ready(op) && Rewritten(old(op.State()), op.State()) && OnlyViewsReadViews(op.graph)
    ensures PlainCopies(old(op.graph)) ==> PlainCopies(op.graph)
  {
    ghost var start := op.State();
    var views := SelectViews(op.graph);
    ids, trace := views, [start];
    RewrittenToItself(start);
    NothingConverted(start);
    ListedAreViews(op.graph, ids);
    hide Good, Rewritten, PlainCopies, ConvertsInOrder, ConvertedOnce, ConsumersFirst, Converted, ListsViews;
    for k := 0 to |views|
      invariant Ready(op) && Rewritten(start, op.State())
      invariant ListsViews(op.graph, views) && Converted(op.graph, views, k)
      invariant PlainCopies(start.graph) ==> PlainCopies(op.graph)
      invariant |trace| == k + 1 && trace[0] == start && trace[k] == op.State() && ConvertsInOrder(trace, views[..k])
    {
      ConvertNext(op, views, k, start);
      OneMoreConverted(trace, views, k, op.State());
      trace := trace + [op.State()];
    }
    assert views[..|views|] == views;
    AllConverted(start, op.State(), views);
  }

  // ----- chains that copy -----

  /** Reinterpret or contiguous node n continues a chain: another such node defines what it
      reads, and just one place reads that. */
  ghost predicate Continues(g: Graph, n: NodeId)
    requires IsViewAt(g, n)
  {
    var v := g.nodes[n].inputs[0].value;
    (exists at: Place :: DefinesAt(g, at, v) && IsReinterpretOrContiguous(g.nodes[at.0])) && ReadOnce(g, v)
  }

  ghost predicate ReadOnce(g: Graph, v: ValueId) {
    exists at: Place :: g.ReadsAt(at.0, at.1, v) && forall m: NodeId, i: nat :: g.ReadsAt(m, i, v) ==> (m, i) == at
  }

  ghost predicate Starts(g: Graph, n: NodeId) {
    g.Live(n) && IsReinterpretOrContiguous(g.nodes[n]) && IsView(g.nodes[n]) && !Continues(g, n)
  }

  /** A chain starts at a reinterpret or contiguous node unless another one, d, defines its input
      and no other slot of a live node reads that. */
  lemma StartsUnlessFed(g: Graph, n: NodeId, d: NodeId)
    requires PlainViews(g) && g.SingleDefinition() && n < |g.nodes| && !g.nodes[n].deleted
    requires g.nodes[n].op.Reinterpret? || g.nodes[n].op.Contiguous?
    requires d < |g.nodes| && !g.nodes[d].deleted && g.nodes[n].inputs != [] && g.nodes[n].inputs[0].Some?
    requires g.nodes[n].inputs[0].value in g.nodes[d].outputs
    ensures Starts(g, n) <==>
              !((g.nodes[d].op.Reinterpret? || g.nodes[d].op.Contiguous?) && OneReader(g, g.nodes[n].inputs[0].value, n))
  {
    var v := g.nodes[n].inputs[0].value;
    assert IsViewAt(g, n) && g.ReadsAt(n, 0, v);
    var j: nat :| j < |g.nodes[d].outputs| && g.nodes[d].outputs[j] == v;
    assert DefinesAt(g, (d, j), v) && g.Defines(d, v);
    forall at: Place | DefinesAt(g, at, v) ensures at.0 == d {
      assert g.Defines(at.0, v);
    }
    SoleIsOne(g, v, n);
    if ReadOnce(g, v) {
      var at: Place :| g.ReadsAt(at.0, at.1, v) && forall m: NodeId, i: nat :: g.ReadsAt(m, i, v) ==> (m, i) == at;
      assert (n, 0) == at;
    }
    if SoleReader(g, v, n) {
      var at: Place := (n, 0);
      assert g.ReadsAt(at.0, at.1, v) && forall m: NodeId, i: nat :: g.ReadsAt(m, i, v) ==> (m, i) == at;
    }
  }

  /** And always where no live node defines its input. */
  lemma StartsUndefined(g: Graph, n: NodeId)
    requires PlainViews(g) && n < |g.nodes| && !g.nodes[n].deleted
    requires g.nodes[n].inputs != [] && g.nodes[n].inputs[0].Some?
    requires forall d: NodeId :: d < |g.nodes| && !g.nodes[d].deleted ==> g.nodes[n].inputs[0].value !in g.nodes[d].outputs
    ensures Starts(g, n) <==> g.nodes[n].op.Reinterpret? || g.nodes[n].op.Contiguous?
  {
    forall at: Place ensures !DefinesAt(g, at, g.nodes[n].inputs[0].value) {
    }
  }

  lemma ReadOnceIsIndexed(g: Graph, used: UseIndex, v: ValueId)
    requires IndexesUses(g, used)
    ensures ReadOnce(g, v) <==> v in used && |used[v]| == 1
  {
    if ReadOnce(g, v) {
      var at: Place :| g.ReadsAt(at.0, at.1, v) && forall m: NodeId, i: nat :: g.ReadsAt(m, i, v) ==> (m, i) == at;
      assert IndexedAt(used, at.0, at.1, v);
      forall b: Place | b in used[v] ensures b == at {
        assert IndexedAt(used, b.0, b.1, v);
      }
      assert used[v] == {at};
    }
    if v in used && |used[v]| == 1 {
      var at: Place :| at in used[v];
      ReaderIsLive(g, used, v, at);
      forall m: NodeId, i: nat | g.ReadsAt(m, i, v) ensures (m, i) == at {
        assert IndexedAt(used, m, i, v);
        OnlyMember(used[v], (m, i), at);
      }
    }
  }

  /** Whether a chain starts at node id. */
  method StartsChain(op: SimpleGraphOp, id: NodeId) returns (r: bool)
    requires Ready(op) && op.graph.Live(id)
    ensures r <==> Starts(op.graph, id)
  {
    var node := op.graph.nodes[id];
    if !IsReinterpretOrContiguous(node) {
      return false;
    }
    assert IsViewAt(op.graph, id);
    var input := node.inputs[0].value;
    assert op.graph.ReadsAt(id, 0, input);
    if input !in op.value2defined {
      return true;
    }
    assert Resolved(op.graph, op.value2defined, input);
    assert DefinesAt(op.graph, op.value2defined[input], input);
    if !IsReinterpretOrContiguous(op.graph.nodes[op.value2defined[input].0]) {
      forall at: Place | DefinesAt(op.graph, at, input) ensures !IsReinterpretOrContiguous(op.graph.nodes[at.0]) {
        DefiningPlaceIsUnique(op.graph, at, op.value2defined[input], input);
      }
      return true;
    }
    ReadOnceIsIndexed(op.graph, op.value2used, input);
    r := input !in op.value2used || |op.value2used[input]| != 1;
  }

  ghost predicate ListsCopies(g: Graph, ids: seq<NodeId>) {
    forall k :: 0 <= k < |ids| ==> g.Live(ids[k]) && IsReinterpretOrContiguous(g.nodes[ids[k]])
  }

  /** The starts of all chains, each once. */
  method ChainStarts(op: SimpleGraphOp) returns (ids: seq<NodeId>)
    requires Ready(op)
    ensures ListsCopies(op.graph, ids) && NoRepeats(ids) && ProducersFirst(op.graph, ids)
    ensures forall n: NodeId :: n in ids <==> Starts(op.graph, n)
  {
    var order := Order(op);
    ids := [];
    assert NoRepeats(ids);
    hide Starts, Ready, NoRepeats, Before;
    for k := 0 to |order|
      invariant forall i, j :: 0 <= i < j < |ids| ==> Before(order, ids[i], ids[j])
      invariant forall n: NodeId :: n in ids <==> n in order[..k] && Starts(op.graph, n)
      invariant NoRepeats(ids)
    {
      var starts := StartsChain(op, order[k]);
      NextInOrder(order, k, ids, order[k]);
      if starts {
        ids := ids + [order[k]];
      }
    }
    assert order[..|order|] == order;
    ListedStarts(op.graph, ids);
    forall n: NodeId | Starts(op.graph, n) ensures n in order {
      StartComputes(op.graph, n);
    }
  }

  lemma StartComputes(g: Graph, n: NodeId)
    requires Starts(g, n)
    ensures g.Computes(n)
  {
  }

  lemma ListedStarts(g: Graph, ids: seq<NodeId>)
    requires forall n: NodeId :: n in ids ==> Starts(g, n)
    ensures ListsCopies(g, ids)
  {
    forall k | 0 <= k < |ids| ensures g.Live(ids[k]) && IsReinterpretOrContiguous(g.nodes[ids[k]]) {
      assert ids[k] in ids;
    }
  }

  method Order(op: SimpleGraphOp) returns (order: seq<NodeId>)
    requires Ready(op)
    ensures IsTopological(op.graph, order)
    ensures NoRepeats(order) && forall n: NodeId :: n in order <==> op.graph.Computes(n)
    ensures forall k :: 0 <= k < |order| ==> op.graph.Live(order[k])
  {
    order := SimpleTopologicalOrder(op.graph);
    forall k | 0 <= k < |order| ensures op.graph.Live(order[k]) {
      assert order[k] in order;
    }
  }

  lemma NextInOrder(order: seq<NodeId>, k: nat, ids: seq<NodeId>, n: NodeId)
    requires NoRepeats(order) && k < |order| && order[k] == n && NoRepeats(ids)
    requires forall m: NodeId :: m in ids ==> m in order[..k]
    ensures order[..k + 1] == order[..k] + [n] && NoRepeats(ids + [n])
    ensures forall i :: 0 <= i < |ids| ==> Before(order, ids[i], n)
  {
    forall i | 0 <= i < |ids| ensures ids[i] != n && Before(order, ids[i], n) {
      assert ids[i] in order[..k];
    }
  }

  lemma FoldingKeepsList(s: Snapshot, ids: seq<NodeId>, b: Bundle)
    requires Good(s) && Bundles(s, b) && ListsCopies(s.graph, ids)
    ensures ListsCopies(Bundled(s, b).graph, ids)
  {
    BundleInBounds(s, b);
    NewNodeStays(s, b);
    forall k | 0 <= k < |ids|
      ensures Bundled(s, b).graph.Live(ids[k]) && IsReinterpretOrContiguous(Bundled(s, b).graph.nodes[ids[k]])
    {
      BundledNode(s, b, ids[k]);
    }
  }

  /** The chain that starts at node n: n itself and, folding forward, the longest chain after it. */
  ghost predicate ChainFrom(g: Graph, n: NodeId, foldForward: bool, path: seq<NodeId>, last: ValueId)
    requires IsViewAt(g, n)
  {
    && path != [] && path[0] == n
    && if foldForward then FoldableChain(g, path[1..], g.nodes[n].outputs[0], last)
       else path == [n] && last == g.nodes[n].outputs[0]
  }

  /** A chain of several nodes one of which copies. */
  predicate Copies(g: Graph, path: seq<NodeId>)
    requires forall k :: 0 <= k < |path| ==> IsViewAt(g, path[k])
  {
    |path| != 1 && exists k :: 0 <= k < |path| && IsViewAt(g, path[k]) && g.nodes[path[k]].op.Contiguous?
  }

  /** Folding the chain from node n turns s into t: a chain that copies becomes one contiguous
      node with all its views, any other stays. */
  ghost predicate Folds(s: Snapshot, n: NodeId, foldForward: bool, t: Snapshot) {
    IsViewAt(s.graph, n) &&
    exists path: seq<NodeId>, last: ValueId :: ChainFrom(s.graph, n, foldForward, path, last) && FoldsPath(s, n, path, last, t)
  }

  ghost predicate FoldsPath(s: Snapshot, n: NodeId, path: seq<NodeId>, last: ValueId, t: Snapshot)
    requires IsViewAt(s.graph, n)
  {
    && (forall k :: 0 <= k < |path| ==> IsViewAt(s.graph, path[k]))
    && if Copies(s.graph, path) then
         var b := Bundle(path, s.graph.nodes[n].inputs[0].value, last, Contiguous(PathOps(s, path)));
         Bundles(s, b) && t == Bundled(s, b)
       else t == s
  }

  /** The chain that starts at node id, and the value it ends in. */
  method ChainToFold(op: SimpleGraphOp, id: NodeId, foldForward: bool) returns (path: seq<NodeId>, last: ValueId)
    requires Ready(op) && IsViewAt(op.graph, id)
    ensures ChainFrom(op.graph, id, foldForward, path, last) && Chain(op.graph, path, op.graph.nodes[id].inputs[0].value, last)
    ensures forall k :: 0 <= k < |path| ==> IsViewAt(op.graph, path[k])
  {
    var node := op.graph.nodes[id];
    var forward := [];
    last := node.outputs[0];
    if foldForward {
      last, forward := op.WalkChainForward(node.outputs[0]);
    }
    path := [id] + forward;
    assert path[1..] == forward;
    ChainPrepend(op.graph, id, forward, node.outputs[0], last);
    forall k | 0 <= k < |path| ensures IsViewAt(op.graph, path[k]) {
      ChainIsViews(op.graph, path, node.inputs[0].value, last, k);
    }
  }

  /** Folds the chain that starts at node id into one contiguous node, if it has several nodes
      and one of them copies. */
  method FoldOne(op: SimpleGraphOp, id: NodeId, foldForward: bool)
    requires Ready(op) && op.graph.Live(id) && IsReinterpretOrContiguous(op.graph.nodes[id])
    modifies op
    ensures Ready(op) && Folds(old(op.State()), id, foldForward, op.State())
  {
    assert IsViewAt(op.graph, id);
    hide Bundled, Chain, ChainFrom, Good, Tracks;
    ghost var before := op.State();
    var node := op.graph.nodes[id];
    var path, last := ChainToFold(op, id, foldForward);
    var hasContiguous := exists k :: 0 <= k < |path| && op.graph.nodes[path[k]].op.Contiguous?;
    assert hasContiguous <==> exists k :: 0 <= k < |path| && IsViewAt(before.graph, path[k]) && before.graph.nodes[path[k]].op.Contiguous?;
    if !hasContiguous || |path| == 1 {
      assert FoldsPath(before, id, path, last, op.State());
      return;
    }
    var ops := BundleOps(op, path);
    var b := Bundle(path, node.inputs[0].value, last, Contiguous(ops));
    PathIsFolded(before, id, path, last, b);
    hide Bundles, Copies, FoldsPath, Ready;
    Replace(op, b);
    assert FoldsPath(before, id, path, last, op.State());
  }

  /** The same in terms of the nodes: some chain from n, extended while its end is read at one
      place and that by another such node; if it has several nodes and one of them copies, there
      is one new contiguous node, from the chain's start and with its views. */
  lemma FoldedChain(s: Snapshot, n: NodeId, foldForward: bool, t: Snapshot) returns (path: seq<NodeId>, last: ValueId)
    requires Good(s) && Folds(s, n, foldForward, t)
    ensures path != [] && path[0] == n && Chain(s.graph, path, s.graph.nodes[n].inputs[0].value, last)
    ensures forall k :: 0 <= k < |path| ==> IsViewAt(s.graph, path[k])
    ensures !foldForward ==> path == [n]
    ensures foldForward ==> forall k :: 0 < k < |path| ==> FollowsOn(s.graph, path[k])
    ensures foldForward ==>
              forall r: NodeId :: OneReader(s.graph, last, r) ==> !s.graph.nodes[r].op.Reinterpret? && !s.graph.nodes[r].op.Contiguous?
    ensures if |path| >= 2 && exists k :: 0 <= k < |path| && path[k] < |s.graph.nodes| && s.graph.nodes[path[k]].op.Contiguous?
            then var b := Bundle(path, s.graph.nodes[n].inputs[0].value, last, Contiguous(PathOps(s, path)));
                 Bundles(s, b) && t == Bundled(s, b) && |t.graph.nodes| == |s.graph.nodes| + 1 &&
                 t.graph.nodes[|s.graph.nodes|] == Node([s.graph.nodes[n].inputs[0]], [|s.values|], Contiguous(PathOps(s, path)), false)
            else t == s
  {
    var p: seq<NodeId>, v: ValueId :| ChainFrom(s.graph, n, foldForward, p, v) && FoldsPath(s, n, p, v, t);
    path, last := p, v;
    ChainIsFrom(s.graph, n, foldForward, path, last);
    hide Good, Chain, PathOps;
    if Copies(s.graph, path) {
      var b := Bundle(path, s.graph.nodes[n].inputs[0].value, last, Contiguous(PathOps(s, path)));
      BundleInBounds(s, b);
      NewNodeStays(s, b);
    }
  }

  /** Slot 0 of r reads v, and no other slot of a live node does. */
  ghost predicate OneReader(g: Graph, v: ValueId, r: NodeId) {
    && r < |g.nodes| && !g.nodes[r].deleted && g.nodes[r].inputs != [] && g.nodes[r].inputs[0] == Some(v)
    && forall m: NodeId, i: nat :: m < |g.nodes| && !g.nodes[m].deleted && i < |g.nodes[m].inputs| && g.nodes[m].inputs[i] == Some(v) ==>
         m == r && i == 0
  }

  /** Reinterpret or contiguous node n is the one reader of its input. */
  ghost predicate FollowsOn(g: Graph, n: NodeId) {
    && n < |g.nodes| && (g.nodes[n].op.Reinterpret? || g.nodes[n].op.Contiguous?)
    && g.nodes[n].inputs != [] && g.nodes[n].inputs[0].Some? && OneReader(g, g.nodes[n].inputs[0].value, n)
  }

  lemma ChainIsFrom(g: Graph, n: NodeId, foldForward: bool, path: seq<NodeId>, last: ValueId)
    requires IsViewAt(g, n) && ChainFrom(g, n, foldForward, path, last)
    ensures Chain(g, path, g.nodes[n].inputs[0].value, last)
    ensures foldForward ==> forall k :: 0 < k < |path| ==> FollowsOn(g, path[k])
    ensures foldForward ==> forall r: NodeId :: OneReader(g, last, r) ==> !g.nodes[r].op.Reinterpret? && !g.nodes[r].op.Contiguous?
  {
    assert path == [n] + path[1..];
    if foldForward {
      ChainPrepend(g, n, path[1..], g.nodes[n].outputs[0], last);
      forall k | 0 < k < |path| ensures FollowsOn(g, path[k]) {
        assert FoldableAt(g, path[1..], k - 1);
        assert path[1..][k - 1] == path[k];
        SoleIsOne(g, g.nodes[path[k]].inputs[0].value, path[k]);
      }
      forall r: NodeId | OneReader(g, last, r) ensures !g.nodes[r].op.Reinterpret? && !g.nodes[r].op.Contiguous? {
        SoleIsOne(g, last, r);
      }
    } else {
      ChainPrepend(g, n, [], g.nodes[n].outputs[0], last);
    }
  }

  lemma SoleIsOne(g: Graph, v: ValueId, r: NodeId)
    ensures SoleReader(g, v, r) <==> OneReader(g, v, r)
  {
    if OneReader(g, v, r) {
      assert g.ReadsAt(r, 0, v);
    }
    if SoleReader(g, v, r) {
      forall m: NodeId, i: nat | m < |g.nodes| && !g.nodes[m].deleted && i < |g.nodes[m].inputs| && g.nodes[m].inputs[i] == Some(v)
        ensures m == r && i == 0
      {
        assert g.ReadsAt(m, i, v);
      }
    }
  }

  lemma PathIsFolded(s: Snapshot, n: NodeId, path: seq<NodeId>, last: ValueId, b: Bundle)
    requires IsViewAt(s.graph, n) && path != [] && Chain(s.graph, path, s.graph.nodes[n].inputs[0].value, last)
    requires forall k :: 0 <= k < |path| ==> IsViewAt(s.graph, path[k])
    requires Copies(s.graph, path) && b == Bundle(path, s.graph.nodes[n].inputs[0].value, last, Contiguous(PathOps(s, path)))
    ensures Bundles(s, b) && FoldsPath(s, n, path, last, Bundled(s, b))
  {
    hide Bundled;
  }

  lemma FoldedIsRewritten(start: Snapshot, s: Snapshot, n: NodeId, foldForward: bool, t: Snapshot, ids: seq<NodeId>)
    requires Good(s) && Rewritten(start, s) && Folds(s, n, foldForward, t) && ListsCopies(s.graph, ids)
    ensures Rewritten(start, t) && ListsCopies(t.graph, ids)
    ensures !foldForward ==> t == s
  {
    var path: seq<NodeId>, last: ValueId :| ChainFrom(s.graph, n, foldForward, path, last) && FoldsPath(s, n, path, last, t);
    if Copies(s.graph, path) {
      var b := Bundle(path, s.graph.nodes[n].inputs[0].value, last, Contiguous(PathOps(s, path)));
      RewrittenFurther(start, s, b);
      FoldingKeepsList(s, ids, b);
    }
  }

  /** The chains from the nodes listed are folded one after another. */
  ghost predicate FoldsInOrder(trace: seq<Snapshot>, ids: seq<NodeId>, foldForward: bool) {
    |trace| == |ids| + 1 && forall k :: 0 <= k < |ids| ==> Folds(trace[k], ids[k], foldForward, trace[k + 1])
  }

  /** Folds every chain of reinterpret and contiguous nodes that copies, from all the nodes that
      start one; without `foldForward` it changes nothing. */
  method ContiguousFolding(op: SimpleGraphOp, foldForward: bool)
    returns (ghost ids: seq<NodeId>, ghost trace: seq<Snapshot>)
    requires Ready(op)
    modifies op
    ensures Ready(op) && Rewritten(old(op.State()), op.State())
    ensures NoRepeats(ids) && ProducersFirst(old(op.graph), ids) && forall n: NodeId :: n in ids <==> Starts(old(op.graph), n)
    ensures FoldsInOrder(trace, ids, foldForward) && trace[0] == old(op.State()) && trace[|ids|] == op.State()
    ensures !foldForward ==> op.State() == old(op.State())
  {
    ghost var start := op.State();
    var starts := ChainStarts(op);
    ids, trace := starts, [start];
    RewrittenToItself(start);
    NothingFolded(start, foldForward);
    hide Ready, Good, Rewritten, Folds, FoldsInOrder, ListsCopies, Starts, NoRepeats, ProducersFirst;
    for k := 0 to |starts|
      invariant Ready(op) && Rewritten(start, op.State()) && ListsCopies(op.graph, starts)
      invariant |trace| == k + 1 && trace[0] == start && trace[k] == op.State() && FoldsInOrder(trace, starts[..k], foldForward)
      invariant !foldForward ==> op.State() == start
    {
      FoldNext(op, starts, k, foldForward, start);
      OneMoreFolded(trace, starts, k, foldForward, op.State());
      trace := trace + [op.State()];
    }
    assert starts[..|starts|] == starts;
  }

  lemma NothingFolded(s: Snapshot, foldForward: bool)
    ensures FoldsInOrder([s], [], foldForward)
  {
  }

  lemma OneMoreFolded(trace: seq<Snapshot>, ids: seq<NodeId>, k: nat, foldForward: bool, t: Snapshot)
    requires k < |ids| && FoldsInOrder(trace, ids[..k], foldForward) && Folds(trace[k], ids[k], foldForward, t)
    ensures FoldsInOrder(trace + [t], ids[..k + 1], foldForward)
  {
  }

  /** One step of the pass above. */
  method FoldNext(op: SimpleGraphOp, ids: seq<NodeId>, k: nat, foldForward: bool, ghost start: Snapshot)
    requires Ready(op) && Rewritten(start, op.State()) && ListsCopies(op.graph, ids) && k < |ids|
    modifies op
    ensures Ready(op) && Rewritten(start, op.State()) && ListsCopies(op.graph, ids)
    ensures Folds(old(op.State()), ids[k], foldForward, op.State())
    ensures !foldForward ==> op.State() == old(op.State())
  {
    hide Bundled, Rewritten, Folds;
    ghost var before := op.State();
    FoldOne(op, ids[k], foldForward);
    FoldedIsRewritten(start, before, ids[k], foldForward, op.State(), ids);
  }
}
