/** Which nodes the outputs need, and deleting the others. */
module DeadNodes {
  import opened Options
  import opened GraphModel
  import opened UseDefIndex
  import opened GraphIndex

  // ----- what the outputs reach backwards -----

  /** Node n, which is no graph input, reads a value of d that is not an initializer. */
  ghost predicate FedBy(g: Graph, d: NodeId, n: NodeId) {
    exists i: nat :: FedAt(g, d, n, i)
  }

  predicate FedAt(g: Graph, d: NodeId, n: NodeId, i: nat) {
    && g.Live(n) && !g.nodes[n].op.Input? && i < |g.nodes[n].inputs| && g.nodes[n].inputs[i].Some?
    && g.nodes[n].inputs[i].value !in g.initializers && g.Defines(d, g.nodes[n].inputs[i].value)
  }

  ghost predicate Path(g: Graph, outputs: seq<NodeId>, path: seq<NodeId>) {
    path != [] && path[0] in outputs && forall k :: 0 < k < |path| ==> FedBy(g, path[k], path[k - 1])
  }

  ghost predicate Reached(g: Graph, outputs: seq<NodeId>, n: NodeId) {
    exists path: seq<NodeId> :: Path(g, outputs, path) && path[|path| - 1] == n
  }

  lemma OutputsAreReached(g: Graph, outputs: seq<NodeId>, n: NodeId)
    requires n in outputs
    ensures Reached(g, outputs, n)
  {
    assert Path(g, outputs, [n]);
  }

  lemma FeederIsReached(g: Graph, outputs: seq<NodeId>, d: NodeId, n: NodeId)
    requires Reached(g, outputs, n) && FedBy(g, d, n)
    ensures Reached(g, outputs, d)
  {
    var path: seq<NodeId> :| Path(g, outputs, path) && path[|path| - 1] == n;
    assert Path(g, outputs, path + [d]);
  }

  /** In terms of the nodes: the outputs are reached, and with a node that is no graph input the
      live nodes that define what it reads, initial tensors apart. */
  lemma ReachedOn(g: Graph, outputs: seq<NodeId>, n: NodeId, i: nat, d: NodeId)
    requires n < |g.nodes| && !g.nodes[n].deleted && i < |g.nodes[n].inputs| && g.nodes[n].inputs[i].Some?
    requires d < |g.nodes| && !g.nodes[d].deleted && g.nodes[n].inputs[i].value in g.nodes[d].outputs
    ensures n in outputs ==> Reached(g, outputs, n)
    ensures Reached(g, outputs, n) && !g.nodes[n].op.Input? && g.nodes[n].inputs[i].value !in g.initializers ==> Reached(g, outputs, d)
  {
    if n in outputs {
      OutputsAreReached(g, outputs, n);
    }
    if Reached(g, outputs, n) && !g.nodes[n].op.Input? && g.nodes[n].inputs[i].value !in g.initializers {
      assert FedAt(g, d, n, i);
      FeederIsReached(g, outputs, d, n);
    }
  }

  /** And nothing else is reached. */
  lemma ReachedFrom(g: Graph, outputs: seq<NodeId>, d: NodeId) returns (n: NodeId, i: nat)
    requires Reached(g, outputs, d) && d !in outputs
    ensures Reached(g, outputs, n) && n < |g.nodes| && !g.nodes[n].deleted && !g.nodes[n].op.Input?
    ensures i < |g.nodes[n].inputs| && g.nodes[n].inputs[i].Some? && g.nodes[n].inputs[i].value !in g.initializers
    ensures d < |g.nodes| && !g.nodes[d].deleted && g.nodes[n].inputs[i].value in g.nodes[d].outputs
  {
    var path: seq<NodeId> :| Path(g, outputs, path) && path[|path| - 1] == d;
    var k := |path| - 1;
    assert FedBy(g, path[k], path[k - 1]);
    assert Path(g, outputs, path[..k]);
    n := path[k - 1];
    i :| FedAt(g, d, n, i);
  }

  ghost predicate ClosedAt(g: Graph, n: NodeId, s: set<NodeId>) {
    forall d: NodeId :: FedBy(g, d, n) ==> d in s
  }

  /** A closed set with the outputs in it holds every reached node. */
  lemma {:induction false} ClosedHoldsReached(g: Graph, outputs: seq<NodeId>, s: set<NodeId>, path: seq<NodeId>)
    requires (forall n :: n in outputs ==> n in s) && (forall n: NodeId :: n in s ==> ClosedAt(g, n, s))
    requires Path(g, outputs, path)
    ensures path[|path| - 1] in s
    decreases |path|
  {
    var n := |path| - 1;
    if n > 0 {
      ClosedHoldsReached(g, outputs, s, path[..n]);
      assert FedBy(g, path[n], path[n - 1]);
    }
  }

  // ----- the depth-first search -----

  ghost predicate AllReached(g: Graph, outputs: seq<NodeId>, s: set<NodeId>) {
    forall n: NodeId :: n in s ==> g.Live(n) && Reached(g, outputs, n)
  }

  ghost function LiveNodes(g: Graph): set<NodeId> {
    set n: NodeId | n < |g.nodes| && g.Live(n)
  }

  /** Adds n and everything it needs to the nodes visited so far. */
  method UsedNodesDfs(g: Graph, defined: DefIndex, ghost outputs: seq<NodeId>, n: NodeId, before: set<NodeId>)
    returns (visited: set<NodeId>)
    requires Sound(g, defined) && g.Live(n) && Reached(g, outputs, n) && AllReached(g, outputs, before)
    ensures before + {n} <= visited && AllReached(g, outputs, visited)
    ensures forall m: NodeId :: m in visited && m !in before ==> ClosedAt(g, m, visited)
    decreases LiveNodes(g) - before
  {
    if n in before {
      return before;
    }
    visited := before + {n};
    if g.nodes[n].op.Input? {
      return;
    }
    var inputs := g.nodes[n].inputs;
    for i := 0 to |inputs|
      invariant before + {n} <= visited && AllReached(g, outputs, visited)
      invariant forall m: NodeId :: m in visited && m !in before && m != n ==> ClosedAt(g, m, visited)
      invariant forall j: nat, d: NodeId :: j < i && FedAt(g, d, n, j) ==> d in visited
    {
      if inputs[i].Some? && inputs[i].value !in g.initializers {
        var v := inputs[i].value;
        assert g.ReadsAt(n, i, v);
        assert Resolved(g, defined, v);
        var d := defined[v].0;
        assert FedAt(g, d, n, i);
        FeederIsReached(g, outputs, d, n);
        visited := UsedNodesDfs(g, defined, outputs, d, visited);
      }
    }
  }

  /** The nodes the outputs reach backwards. */
  method UsedNodes(g: Graph, defined: DefIndex, outputs: seq<NodeId>) returns (visited: set<NodeId>)
    requires Sound(g, defined) && forall n :: n in outputs ==> g.Live(n)
    ensures forall n: NodeId :: n in visited <==> Reached(g, outputs, n)
    ensures AllReached(g, outputs, visited)
  {
    visited := {};
    for i := 0 to |outputs|
      invariant forall j :: 0 <= j < i ==> outputs[j] in visited
      invariant AllReached(g, outputs, visited)
      invariant forall m: NodeId :: m in visited ==> ClosedAt(g, m, visited)
    {
      OutputsAreReached(g, outputs, outputs[i]);
      visited := UsedNodesDfs(g, defined, outputs, outputs[i], visited);
    }
    forall n: NodeId | Reached(g, outputs, n) ensures n in visited {
      var path: seq<NodeId> :| Path(g, outputs, path) && path[|path| - 1] == n;
      ClosedHoldsReached(g, outputs, visited, path);
    }
  }

  // ----- deletion -----

  /** The first k nodes without the computing ones outside `kept`. */
  function Pruned(g: Graph, kept: set<NodeId>, k: nat): (r: Graph)
    ensures |r.nodes| == |g.nodes| && r.initializers == g.initializers
  {
    g.(nodes := seq(|g.nodes|, n requires 0 <= n < |g.nodes| =>
      if n < k && g.Computes(n) && n !in kept then g.nodes[n].(deleted := true) else g.nodes[n]))
  }

  /** The index without the first k slots of one node. */
  ghost predicate IndexesWithout(g: Graph, used: UseIndex, id: NodeId, k: nat) {
    && NoEmptyRow(used)
    && forall v: ValueId, n: NodeId, i: nat :: IndexedAt(used, n, i, v) <==> g.ReadsAt(n, i, v) && !(n == id && i < k)
  }

  method RemoveUses(g: Graph, used: UseIndex, id: NodeId) returns (used': UseIndex)
    requires g.Live(id) && IndexesUses(g, used)
    ensures IndexesUses(g.(nodes := g.nodes[id := g.nodes[id].(deleted := true)]), used')
  {
    used' := used;
    var inputs := g.nodes[id].inputs;
    for i := 0 to |inputs|
      invariant IndexesWithout(g, used', id, i)
    {
      if inputs[i].Some? {
        assert g.ReadsAt(id, i, inputs[i].value);
        assert IndexedAt(used', id, i, inputs[i].value);
        used' := RemoveUse(used', inputs[i].value, (id, i));
      }
    }
    ghost var g' := g.(nodes := g.nodes[id := g.nodes[id].(deleted := true)]);
    forall v: ValueId, n: NodeId, i: nat ensures IndexedAt(used', n, i, v) <==> g'.ReadsAt(n, i, v) {
    }
  }

  /** Marks the computing nodes outside `kept` as deleted and takes their reads off the index. */
  method DeleteOutside(g: Graph, used: UseIndex, kept: set<NodeId>) returns (g': Graph, used': UseIndex)
    requires IndexesUses(g, used)
    ensures g' == Pruned(g, kept, |g.nodes|) && IndexesUses(g', used')
  {
    g', used' := g, used;
    assert Pruned(g, kept, 0).nodes == g.nodes;
    for id := 0 to |g.nodes|
      invariant g' == Pruned(g, kept, id) && IndexesUses(g', used')
    {
      assert g'.nodes[id] == g.nodes[id];
      if id !in kept && !g'.nodes[id].deleted && !g'.nodes[id].IsDummy() {
        used' := RemoveUses(g', used', id);
        g' := g'.(nodes := g'.nodes[id := g'.nodes[id].(deleted := true)]);
      }
      assert g'.nodes == Pruned(g, kept, id + 1).nodes;
    }
  }

  /** Value v is defined by a live node outside `kept`. */
  ghost predicate DefinedOutside(g: Graph, kept: set<NodeId>, v: ValueId) {
    exists n: NodeId :: g.Defines(n, v) && n !in kept
  }

  /** The index without the entries of what live nodes outside `kept` define. */
  ghost predicate Dropped(g: Graph, kept: set<NodeId>, defined: DefIndex, defined': DefIndex) {
    && (forall v: ValueId :: v in defined' <==> v in defined && !DefinedOutside(g, kept, v))
    && (forall v: ValueId :: v in defined' ==> defined'[v] == defined[v])
  }

  /** Drops the entries of what live nodes outside `kept` define.  Nodes deleted before are not
      live, so their entries stay. */
  method DropDefinitions(g: Graph, defined: DefIndex, kept: set<NodeId>) returns (defined': DefIndex)
    ensures Dropped(g, kept, defined, defined')
  {
    var gone: set<ValueId> := {};
    for id := 0 to |g.nodes|
      invariant forall v: ValueId :: v in gone ==> DefinedOutside(g, kept, v)
      invariant forall v: ValueId, n: NodeId :: n < id && g.Defines(n, v) && n !in kept ==> v in gone
    {
      if !g.nodes[id].deleted && id !in kept {
        gone := gone + set v | v in g.nodes[id].outputs;
        forall v: ValueId | v in g.nodes[id].outputs ensures DefinedOutside(g, kept, v) {
          assert g.Defines(id, v);
        }
      }
    }
    defined' := defined - gone;
  }

  // ----- what deletion keeps -----

  /** Input and state markers read nothing; every output marker is one of the outputs. */
  ghost predicate MarkersPlain(g: Graph, outputs: seq<NodeId>) {
    forall n: NodeId :: g.Live(n) && g.nodes[n].IsDummy() ==>
      if g.nodes[n].op.Output? then n in outputs else forall i :: 0 <= i < |g.nodes[n].inputs| ==> g.nodes[n].inputs[i].None?
  }

  /** The graph with exactly the computing nodes deleted that the outputs do not reach. */
  ghost predicate PrunedTo(g: Graph, outputs: seq<NodeId>, g': Graph) {
    && |g'.nodes| == |g.nodes| && g'.initializers == g.initializers
    && forall n: NodeId :: n < |g.nodes| ==>
         g'.nodes[n] == if g.Computes(n) && !Reached(g, outputs, n) then g.nodes[n].(deleted := true) else g.nodes[n]
  }

  lemma PrunedIsSound(g: Graph, defined: DefIndex, outputs: seq<NodeId>, kept: set<NodeId>, defined': DefIndex)
    requires Sound(g, defined) && MarkersPlain(g, outputs)
    requires forall n: NodeId :: n in kept <==> Reached(g, outputs, n)
    requires Dropped(Pruned(g, kept, |g.nodes|), kept, defined, defined')
    ensures Sound(Pruned(g, kept, |g.nodes|), defined')
  {
    var g' := Pruned(g, kept, |g.nodes|);
    SameDefinitions(g, g');
    forall n: NodeId, i: nat, v: ValueId | g'.ReadsAt(n, i, v) ensures Resolved(g', defined', v) {
      ReadStaysResolved(g, defined, outputs, kept, defined', n, i, v);
    }
    forall at: Place, v: ValueId | DefinesAt(g', at, v) && g'.Computes(at.0) ensures v in defined' && defined'[v] == at {
      assert DefinesAt(g, at, v) && g.Computes(at.0);
      KeptDefinitionStays(g, kept, v, at.0);
    }
  }

  lemma KeptDefinitionStays(g: Graph, kept: set<NodeId>, v: ValueId, d: NodeId)
    requires g.SingleDefinition() && g.Defines(d, v) && d in kept
    ensures Pruned(g, kept, |g.nodes|).Defines(d, v) && !DefinedOutside(Pruned(g, kept, |g.nodes|), kept, v)
  {
    var g' := Pruned(g, kept, |g.nodes|);
    forall n: NodeId | g'.Defines(n, v) ensures n == d {
      assert g.Defines(n, v);
    }
  }

  lemma ReadStaysResolved(g: Graph, defined: DefIndex, outputs: seq<NodeId>, kept: set<NodeId>, defined': DefIndex,
                      n: NodeId, i: nat, v: ValueId)
    requires Sound(g, defined) && MarkersPlain(g, outputs)
    requires forall n: NodeId :: n in kept <==> Reached(g, outputs, n)
    requires Dropped(Pruned(g, kept, |g.nodes|), kept, defined, defined')
    requires Pruned(g, kept, |g.nodes|).ReadsAt(n, i, v)
    ensures Resolved(Pruned(g, kept, |g.nodes|), defined', v)
  {
    assert g.ReadsAt(n, i, v) && Resolved(g, defined, v);
    if v !in g.initializers {
      var d := defined[v].0;
      if g.nodes[n].IsDummy() {
        assert g.nodes[n].op.Output?;
        OutputsAreReached(g, outputs, n);
      }
      assert FedAt(g, d, n, i);
      FeederIsReached(g, outputs, d, n);
      KeptDefinitionStays(g, kept, v, d);
    }
  }

  /** After a deletion the definition index still equals a recomputed one exactly when no node
      that the outputs do not reach defines anything: entries of deleted nodes are left behind,
      and entries of markers that are kept are lost. */
  lemma DefinitionsStayExact(g: Graph, defined: DefIndex, outputs: seq<NodeId>, kept: set<NodeId>, defined': DefIndex)
    requires g.SingleDefinition() && IndexesDefinitions(g, defined)
    requires Dropped(Pruned(g, kept, |g.nodes|), kept, defined, defined')
    ensures IndexesDefinitions(Pruned(g, kept, |g.nodes|), defined') <==>
            forall n: NodeId :: g.Live(n) && n !in kept ==> g.nodes[n].outputs == []
  {
    var g' := Pruned(g, kept, |g.nodes|);
    if forall n: NodeId :: g.Live(n) && n !in kept ==> g.nodes[n].outputs == [] {
      forall v: ValueId | v in defined ensures v in defined' && DefinesAt(g', defined[v], v) {
        assert g.Defines(defined[v].0, v);
        KeptDefinitionStays(g, kept, v, defined[v].0);
      }
      forall v: ValueId, at: Place | DefinesAt(g', at, v) ensures v in defined' {
        assert DefinesAt(g, at, v);
      }
    } else {
      var n: NodeId :| g.Live(n) && n !in kept && g.nodes[n].outputs != [];
      LeftBehindOrLost(g, defined, kept, defined', n);
    }
  }

  lemma LeftBehindOrLost(g: Graph, defined: DefIndex, kept: set<NodeId>, defined': DefIndex, n: NodeId)
    requires g.SingleDefinition() && IndexesDefinitions(g, defined)
    requires Dropped(Pruned(g, kept, |g.nodes|), kept, defined, defined')
    requires g.Live(n) && n !in kept && g.nodes[n].outputs != []
    ensures var v := g.nodes[n].outputs[0];
            if g.nodes[n].IsDummy() then v !in defined' && DefinesAt(Pruned(g, kept, |g.nodes|), (n, 0), v)
            else v in defined' && defined'[v] == (n, 0) && !Pruned(g, kept, |g.nodes|).Live(n)
  {
    var g', v := Pruned(g, kept, |g.nodes|), g.nodes[n].outputs[0];
    assert DefinesAt(g, (n, 0), v);
    DefiningPlaceIsUnique(g, (n, 0), defined[v], v);
    if g.nodes[n].IsDummy() {
      assert g'.Defines(n, v);
    } else {
      forall m: NodeId | g'.Defines(m, v) ensures m == n {
        assert g.Defines(m, v) && g.Defines(n, v);
      }
    }
  }

  /** An input that is handed out as it is, and a node that nothing reads. */
  function UnusedNode(): Graph {
    Graph([Node([], [0], Input(0), false),
           Node([Some(0)], [1], Elementwise("Exp"), false),
           Node([Some(0)], [], Output(0), false)], {})
  }

  lemma UnusedNodeFacts(g: Graph)
    requires g == UnusedNode()
    ensures |g.nodes| == 3 && g.Computes(1) && g.nodes[1].outputs == [1] && g.SingleDefinition()
    ensures forall d: NodeId, n: NodeId, i: nat :: FedAt(g, d, n, i) ==> d == 0
  {
    assert g.nodes[0].outputs == [0] && g.nodes[1].outputs == [1] && g.nodes[2].outputs == [];
    assert forall n: NodeId, v: ValueId :: g.Defines(n, v) ==> n < 2 && v == n;
  }

  /** The output does not reach the node in between, which is deleted; the entry of its value
      stays behind. */
  lemma UnusedNodeLeavesEntry(g: Graph, defined: DefIndex, kept: set<NodeId>, defined': DefIndex)
    requires g == UnusedNode() && IndexesDefinitions(g, defined)
    requires forall n: NodeId :: n in kept <==> Reached(g, [2], n)
    requires Dropped(Pruned(g, kept, 3), kept, defined, defined')
    ensures 1 !in kept && 1 in defined' && defined'[1] == (1, 0) && !Pruned(g, kept, 3).Live(1)
    ensures !IndexesDefinitions(Pruned(g, kept, 3), defined')
  {
    UnusedNodeFacts(g);
    hide UnusedNode;
    if 1 in kept {
      var path: seq<NodeId> :| Path(g, [2], path) && path[|path| - 1] == 1;
      ClosedHoldsReached(g, [2], {0, 2}, path);
    }
    LeftBehindOrLost(g, defined, kept, defined', 1);
  }
}
