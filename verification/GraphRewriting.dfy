/** Rewriting a graph in place while its two indexes are kept up to date. */
module GraphRewriting {
  import opened Options
  import opened GraphModel
  import opened UseDefIndex
  import opened GraphIndex
  import opened DeadNodes
  import opened ViewChains
  import opened Pruning

  class SimpleGraphOp {
    var graph: Graph
    var values: seq<seq<nat>>
    var value2defined: DefIndex
    var value2used: UseIndex

    ghost predicate Valid()
      reads this
    {
      IndexesUses(graph, value2used)
    }

    /** The graph and the dims of its values. */
    function State(): Snapshot
      reads this
    {
      Snapshot(graph, values)
    }

    constructor (g: Graph, values: seq<seq<nat>>)
      ensures Valid() && State() == Snapshot(g, values) && IndexesDefinitions(g, value2defined)
      ensures g.Closed() && g.SingleDefinition() ==> Sound(g, value2defined)
      ensures g.Closed() && g.SingleDefinition() && InitializersFree(g) ==> Tracks(g, value2defined)
    {
      graph, this.values := g, values;
      var defined, used := CalcValue2xx(g);
      value2defined, value2used := defined, used;
      new;
      if g.Closed() && g.SingleDefinition() {
        FreshIsSound(g, value2defined);
        if InitializersFree(g) {
          FreshTracks(g, value2defined);
        }
      }
    }

    /** Adds a value of the given dims. */
    method RegisterNewValue(dims: seq<nat>) returns (v: ValueId)
      modifies this`values
      ensures v == |old(values)| && values == old(values) + [dims]
    {
      v := |values|;
      values := values + [dims];
    }

    /** Adds a node. */
    method RegisterNewNode(node: Node) returns (id: NodeId)
      requires Valid() && !node.deleted
      modifies this`graph, this`value2defined, this`value2used
      ensures Valid() && id == |old(graph).nodes|
      ensures graph == Added(old(graph), node)
      ensures graph.nodes == old(graph).nodes + [node] && graph.initializers == old(graph).initializers
      ensures Recorded(old(value2defined), value2defined, node.outputs, id, |node.outputs|)
      ensures IndexesDefinitions(old(graph), old(value2defined)) ==> IndexesDefinitions(graph, value2defined)
      ensures Sound(old(graph), old(value2defined)) && Extends(old(graph), old(value2defined), node) ==> Sound(graph, value2defined)
      ensures OutputsNamed(old(graph)) && (node.op.Output? ==> node.inputs == [Some(node.op.v)]) ==> OutputsNamed(graph)
    {
      id := |graph.nodes|;
      ghost var before, definedBefore := graph, value2defined;
      graph := graph.(nodes := graph.nodes + [node]);
      value2used := RecordUses(graph, value2used, id);
      value2defined := RecordDefinitions(value2defined, node.outputs, id);
      if IndexesDefinitions(before, definedBefore) {
        RegisteredIsIndexed(before, definedBefore, node, value2defined);
      }
      if Sound(before, definedBefore) && Extends(before, definedBefore, node) {
        RegisteredIsSound(before, definedBefore, node, value2defined);
      }
    }

    /** The places that read v in nodes that satisfy pred, from the index. */
    method Selected(v: ValueId, pred: (NodeId, Node) -> bool) returns (changed: set<Place>)
      requires Valid()
      ensures changed == Readers(graph, v, pred)
      ensures changed != {} ==> v in value2used && changed <= value2used[v]
    {
      changed := {};
      if v in value2used {
        forall at: Place | at in value2used[v] ensures IndexedAt(value2used, at.0, at.1, v) && graph.Live(at.0) {
          ReaderIsLive(graph, value2used, v, at);
        }
        changed := set at: Place | at in value2used[v] && pred(at.0, graph.nodes[at.0]);
      }
      ReadersAreIndexed(graph, value2used, v, pred, changed);
    }

    /** Turns every reader of one value that satisfies pred to another value. */
    method ReplaceInputValueIf(oldValue: ValueId, newValue: ValueId, pred: (NodeId, Node) -> bool)
      requires Valid() && OutputsNamed(graph)
      modifies this`graph, this`value2used
      ensures Valid() && OutputsNamed(graph)
      ensures graph == Rewired(old(graph), Readers(old(graph), oldValue, pred), newValue)
      ensures Sound(old(graph), value2defined) && Resolved(old(graph), value2defined, newValue) ==> Sound(graph, value2defined)
    {
      ghost var before := graph;
      RewiredKeeps(before, value2defined, Readers(before, oldValue, pred), newValue);
      hide Sound, OutputsNamed, Rewired, Resolved;
      var changed := Selected(oldValue, pred);
      if changed == {} {
        RewireNothing(before, newValue);
        return;
      }
      RewiredUses(before, value2used, oldValue, newValue, changed);
      value2used := MoveUses(value2used, oldValue, newValue, changed);
      Rewire(changed, oldValue, newValue);
    }

    /** Sets one input slot, with empty slots before it if the node has fewer. */
    method SetNodeInput(id: NodeId, index: nat, value: ValueId)
      requires Valid() && graph.Live(id)
      modifies this`graph, this`value2used
      ensures Valid() && graph == WithInput(old(graph), id, index, Some(value))
      ensures Sound(old(graph), value2defined) && Resolved(old(graph), value2defined, value) ==> Sound(graph, value2defined)
      ensures OutputsNamed(old(graph)) && !old(graph).nodes[id].op.Output? ==> OutputsNamed(graph)
    {
      ghost var before := graph;
      var inputs := graph.nodes[id].inputs;
      while |inputs| <= index
        invariant inputs == PaddedTo(before.nodes[id].inputs, |inputs|) && |inputs| <= Longer(|before.nodes[id].inputs|, index + 1)
        invariant |before.nodes[id].inputs| <= |inputs|
        decreases index - |inputs|
      {
        inputs := inputs + [None];
      }
      ghost var usedBefore := value2used;
      if inputs[index].Some? {
        assert before.ReadsAt(id, index, inputs[index].value);
        assert IndexedAt(value2used, id, index, inputs[index].value);
        value2used := RemoveUse(value2used, inputs[index].value, (id, index));
      }
      InputIsIndexed(before, usedBefore, id, index, value2used, value);
      InputSetKeeps(before, value2defined, id, index, value);
      hide IndexesUses, Sound, OutputsNamed, Resolved, AddUse, RemoveUse;
      graph := graph.(nodes := graph.nodes[id := graph.nodes[id].(inputs := inputs[index := Some(value)])]);
      value2used := AddUse(value2used, value, (id, index));
    }

    /** Empties one input slot. */
    method DropNodeInput(id: NodeId, index: nat)
      requires Valid() && graph.Live(id) && index < |graph.nodes[id].inputs|
      modifies this`graph, this`value2used
      ensures Valid() && graph == WithInput(old(graph), id, index, None)
      ensures Sound(old(graph), value2defined) ==> Sound(graph, value2defined)
      ensures OutputsNamed(old(graph)) && !old(graph).nodes[id].op.Output? ==> OutputsNamed(graph)
    {
      ghost var before, usedBefore := graph, value2used;
      var inputs := graph.nodes[id].inputs;
      assert PaddedTo(inputs, index + 1) == inputs;
      if inputs[index].None? {
        assert PaddedTo(inputs, index + 1)[index := None] == inputs;
        assert WithInput(graph, id, index, None).nodes == graph.nodes;
        return;
      }
      graph := graph.(nodes := graph.nodes[id := graph.nodes[id].(inputs := inputs[index := None])]);
      assert before.ReadsAt(id, index, inputs[index].value);
      assert IndexedAt(value2used, id, index, inputs[index].value);
      value2used := RemoveUse(value2used, inputs[index].value, (id, index));
      InputCleared(before, usedBefore, id, index, value2used);
      InputSet(before, id, index, None);
      if Sound(before, value2defined) {
        InputSetIsSound(before, value2defined, id, index, None);
      }
    }

    /** Deletes the computing nodes that the outputs do not reach backwards. */
    method UpdateDeletedNodes(outputs: seq<NodeId>)
      requires Valid() && Sound(graph, value2defined) && forall n :: n in outputs ==> graph.Live(n)
      modifies this`graph, this`value2defined, this`value2used
      ensures Valid() && Prunes(old(State()), State(), outputs)
      ensures MarkersPlain(old(graph), outputs) ==> Sound(graph, value2defined)
      ensures Marks(old(graph), outputs) ==> Marks(graph, outputs)
      ensures MarkersPlain(old(graph), outputs) && Tracks(old(graph), old(value2defined)) ==> Tracks(graph, value2defined)
      ensures MarkersPlain(old(graph), outputs) && Good(old(State())) ==> Good(State())
      ensures OutputsNamed(old(graph)) ==> OutputsNamed(graph)
      ensures IndexesDefinitions(old(graph), old(value2defined)) ==>
                (IndexesDefinitions(graph, value2defined) <==>
                 forall n: NodeId :: old(graph).Live(n) && !Reached(old(graph), outputs, n) ==> old(graph).nodes[n].outputs == [])
    {
      hide Tracks, Good, Marks, MarkersPlain, OutputsNamed, Prunes, IndexesDefinitions, Reached, Dropped, Pruned;
      ghost var before, definedBefore := State(), value2defined;
      var visited := UsedNodes(graph, value2defined, outputs);
      graph, value2used := DeleteOutside(graph, value2used, visited);
      value2defined := DropDefinitions(graph, value2defined, visited);
      hide Sound, IndexesUses, AllReached;
      DeletionPrunes(before, outputs, visited, State());
      DeletionKeepsGraph(before, outputs, State());
      DeletionKeepsIndex(before.graph, definedBefore, outputs, visited, value2defined);
    }

    /** Turns the given places, which read one value, to another. */
    method Rewire(places: set<Place>, oldValue: ValueId, newValue: ValueId)
      requires OutputsNamed(graph) && forall at: Place :: at in places ==> graph.ReadsAt(at.0, at.1, oldValue)
      modifies this`graph
      ensures graph == Rewired(old(graph), places, newValue)
    {
      ghost var before := graph;
      var left := places;
      assert places - places == {};
      RewireNothing(before, newValue);
      while left != {}
        invariant left <= places && graph == Rewired(before, places - left, newValue)
        decreases left
      {
        var at: Place :| at in left;
        var node := graph.nodes[at.0];
        assert before.ReadsAt(at.0, at.1, oldValue);
        if node.op.Output? {
          assert before.nodes[at.0].inputs == [Some(before.nodes[at.0].op.v)];
          assert node.op.v == oldValue;
          node := node.(op := Output(newValue));
        }
        node := node.(inputs := node.inputs[at.1 := Some(newValue)]);
        RewireOneMore(before, places - left, at, newValue);
        assert places - (left - {at}) == places - left + {at};
        graph := graph.(nodes := graph.nodes[at.0 := node]);
        left := left - {at};
      }
      assert places - {} == places;
    }

    /** Turns every reader of one value to another of the same type. */
    method ReplaceInputValue(oldValue: ValueId, newValue: ValueId)
      requires Valid() && OutputsNamed(graph)
      requires oldValue < |values| && newValue < |values| && values[oldValue] == values[newValue]
      modifies this`graph, this`value2used
      ensures Valid() && OutputsNamed(graph)
      ensures graph == Rewired(old(graph), EveryReader(old(graph), oldValue), newValue)
      ensures IndexesDefinitions(old(graph), value2defined) ==> IndexesDefinitions(graph, value2defined)
      ensures Sound(old(graph), value2defined) && Resolved(old(graph), value2defined, newValue) ==> Sound(graph, value2defined)
    {
      ghost var before := graph;
      ReplaceInputValueIf(oldValue, newValue, (n, node) => true);
      assert Readers(before, oldValue, (n, node) => true) == EveryReader(before, oldValue);
      if IndexesDefinitions(before, value2defined) {
        RewiredIsIndexed(before, value2defined, EveryReader(before, oldValue), newValue);
      }
    }

    // ----- chains -----

    /** The largest chain of matching nodes that ends in `value`, last node first, and the value
        it starts from. */
    method WalkChainBackward(value: ValueId, matches: Node -> bool) returns (source: ValueId, chain: seq<NodeId>)
      requires Tracks(graph, value2defined) && Resolved(graph, value2defined, value) && graph.Acyclic()
      requires forall n: NodeId :: graph.Live(n) && matches(graph.nodes[n]) ==> IsView(graph.nodes[n])
      ensures Chain(graph, Backwards(chain), source, value)
      ensures forall at: Place :: DefinesAt(graph, at, source) ==> !matches(graph.nodes[at.0])
    {
      ghost var rank: seq<nat> :| graph.Ranked(rank);
      chain, source := [], value;
      while source in value2defined && matches(graph.nodes[value2defined[source].0])
        invariant Chain(graph, Backwards(chain), source, value) && Resolved(graph, value2defined, source)
        decreases if source in value2defined then rank[value2defined[source].0] + 1 else 0
      {
        ghost var before := source;
        var n := value2defined[source].0;
        assert DefinesAt(graph, value2defined[source], source);
        ChainPrepend(graph, n, Backwards(chain), source, value);
        assert Backwards(chain + [n]) == [n] + Backwards(chain);
        chain := chain + [n];
        source := graph.nodes[n].inputs[0].value;
        assert graph.ReadsAt(n, 0, source);
        assert graph.nodes[n].Reads(source);
        assert source in value2defined ==> DefinesAt(graph, value2defined[source], source);
        assert source in value2defined ==> graph.Edge(value2defined[source].0, n);
      }
    }

    /** The largest chain of reinterpret and contiguous nodes from `value` on in which each value
        has one reader, and the value it ends in. */
    method WalkChainForward(value: ValueId) returns (last: ValueId, chain: seq<NodeId>)
      requires Valid() && graph.Acyclic() && PlainViews(graph)
      ensures FoldableChain(graph, chain, value, last)
    {
      hide Chain, IndexesUses, IndexedAt, IsView, SoleReader, FoldableAt, PlainViews;
      ghost var rank: seq<nat> :| graph.Ranked(rank);
      ghost var top := Highest(rank);
      chain, last := [], value;
      EmptyChain(graph, value);
      while last in value2used && |value2used[last]| == 1
        invariant Chain(graph, chain, value, last)
        invariant forall k :: 0 <= k < |chain| ==> FoldableAt(graph, chain, k)
        invariant chain != [] ==> EndsIn(graph, chain[|chain| - 1], last)
        decreases top + 1 - if chain == [] then 0 else rank[chain[|chain| - 1]] + 1
      {
        var at: Place :| at in value2used[last];
        ReaderIsLive(graph, value2used, last, at);
        var n := at.0;
        if !IsReinterpretOrContiguous(graph.nodes[n]) {
          NoOtherReader(graph, value2used, last, at);
          return;
        }
        ViewReads(graph, value2used, last, at);
        if chain != [] {
          EdgeToReader(graph, chain[|chain| - 1], n, last);
        }
        ChainAppend(graph, chain, n, value, last);
        FoldableAppend(graph, chain, n);
        chain := chain + [n];
        last := graph.nodes[n].outputs[0];
      }
      SoleIsIndexed(graph, value2used, last);
    }
  }

  lemma RewiredKeeps(g: Graph, defined: DefIndex, places: set<Place>, v: ValueId)
    requires OutputsNamed(g) && forall at: Place :: at in places ==> g.Live(at.0) && at.1 < |g.nodes[at.0].inputs|
    ensures OutputsNamed(Rewired(g, places, v))
    ensures Sound(g, defined) && Resolved(g, defined, v) ==> Sound(Rewired(g, places, v), defined)
  {
    RewiredIsNamed(g, places, v);
    hide Sound, Rewired, OutputsNamed;
    if Sound(g, defined) && Resolved(g, defined, v) {
      RewiredIsSound(g, defined, places, v);
    }
  }

  lemma InputIsIndexed(g: Graph, used: UseIndex, id: NodeId, index: nat, cleared: UseIndex, value: ValueId)
    requires g.Live(id) && IndexesUses(g, used)
    requires if index < |g.nodes[id].inputs| && g.nodes[id].inputs[index].Some?
             then g.nodes[id].inputs[index].value in used && cleared == RemoveUse(used, g.nodes[id].inputs[index].value, (id, index))
             else cleared == used
    ensures IndexesUses(WithInput(g, id, index, Some(value)), AddUse(cleared, value, (id, index)))
  {
    InputCleared(g, used, id, index, cleared);
    InputSet(g, id, index, Some(value));
    hide RemoveUse, AddUse, WithInput;
  }

  lemma InputSetKeeps(g: Graph, defined: DefIndex, id: NodeId, index: nat, value: ValueId)
    requires g.Live(id)
    ensures var g' := WithInput(g, id, index, Some(value));
            && (Sound(g, defined) && Resolved(g, defined, value) ==> Sound(g', defined))
            && (OutputsNamed(g) && !g.nodes[id].op.Output? ==> OutputsNamed(g'))
  {
    if Sound(g, defined) && Resolved(g, defined, value) {
      InputSetIsSound(g, defined, id, index, Some(value));
    }
    hide Sound, Resolved;
  }

  // ----- deletion -----

  lemma DeletionPrunes(s: Snapshot, outputs: seq<NodeId>, kept: set<NodeId>, t: Snapshot)
    requires forall n: NodeId :: n in kept <==> Reached(s.graph, outputs, n)
    requires t == s.(graph := Pruned(s.graph, kept, |s.graph.nodes|))
    ensures Prunes(s, t, outputs)
  {
    hide Reached;
  }

  lemma DeletionKeepsGraph(s: Snapshot, outputs: seq<NodeId>, t: Snapshot)
    requires Prunes(s, t, outputs)
    ensures Marks(s.graph, outputs) ==> Marks(t.graph, outputs)
    ensures MarkersPlain(s.graph, outputs) && Good(s) ==> Good(t)
    ensures OutputsNamed(s.graph) ==> OutputsNamed(t.graph)
  {
    hide Marks, MarkersPlain, Good, OutputsNamed;
    if Marks(s.graph, outputs) {
      PruningKeepsMarks(s.graph, outputs, t.graph);
    }
    if MarkersPlain(s.graph, outputs) && Good(s) {
      PruningKeepsGood(s, t, outputs);
    }
    if OutputsNamed(s.graph) {
      PrunedIsNamed(s.graph, outputs, t.graph);
    }
  }

  lemma DeletionKeepsIndex(g: Graph, defined: DefIndex, outputs: seq<NodeId>, kept: set<NodeId>, defined': DefIndex)
    requires Sound(g, defined) && forall n: NodeId :: n in kept <==> Reached(g, outputs, n)
    requires Dropped(Pruned(g, kept, |g.nodes|), kept, defined, defined')
    ensures var g' := Pruned(g, kept, |g.nodes|);
            && (MarkersPlain(g, outputs) ==> Sound(g', defined'))
            && (MarkersPlain(g, outputs) && Tracks(g, defined) ==> Tracks(g', defined'))
            && (IndexesDefinitions(g, defined) ==>
                  (IndexesDefinitions(g', defined') <==>
                   forall n: NodeId :: g.Live(n) && !Reached(g, outputs, n) ==> g.nodes[n].outputs == []))
  {
    assert g.SingleDefinition();
    hide Sound, MarkersPlain, IndexesDefinitions, Reached, DefinedOutside;
    if MarkersPlain(g, outputs) {
      PrunedIsSound(g, defined, outputs, kept, defined');
    }
    if IndexesDefinitions(g, defined) {
      DefinitionsStayExact(g, defined, outputs, kept, defined');
    }
  }

  ghost predicate EndsIn(g: Graph, n: NodeId, v: ValueId) {
    g.Live(n) && v in g.nodes[n].outputs
  }

  lemma EmptyChain(g: Graph, v: ValueId)
    ensures Chain(g, [], v, v)
  {
  }

  lemma ReaderIsLive(g: Graph, used: UseIndex, v: ValueId, at: Place)
    requires IndexesUses(g, used) && v in used && at in used[v]
    ensures g.ReadsAt(at.0, at.1, v)
  {
    assert IndexedAt(used, at.0, at.1, v);
  }

  lemma OnlyMember(s: set<Place>, a: Place, b: Place)
    requires |s| == 1 && a in s && b in s
    ensures a == b
  {
    assert |s - {a}| == 0;
  }

  lemma SoleIsIndexed(g: Graph, used: UseIndex, v: ValueId)
    requires IndexesUses(g, used)
    ensures forall n: NodeId :: SoleReader(g, v, n) ==> v in used && used[v] == {(n, 0)}
  {
    forall n: NodeId | SoleReader(g, v, n) ensures v in used && used[v] == {(n, 0)} {
      assert IndexedAt(used, n, 0, v);
      forall at: Place | at in used[v] ensures at == (n, 0) {
        assert IndexedAt(used, at.0, at.1, v);
      }
    }
  }

  lemma NoOtherReader(g: Graph, used: UseIndex, v: ValueId, at: Place)
    requires IndexesUses(g, used) && v in used && at in used[v]
    ensures forall n: NodeId :: SoleReader(g, v, n) ==> n == at.0
  {
    SoleIsIndexed(g, used, v);
  }

  /** The one reader of a value, if it is a reinterpret or contiguous node. */
  lemma ViewReads(g: Graph, used: UseIndex, v: ValueId, at: Place)
    requires IndexesUses(g, used) && v in used && |used[v]| == 1 && at in used[v]
    requires g.Live(at.0) && IsReinterpretOrContiguous(g.nodes[at.0]) && PlainViews(g)
    ensures IsViewAt(g, at.0) && g.nodes[at.0].inputs[0] == Some(v) && SoleReader(g, v, at.0)
    ensures |g.nodes[at.0].outputs| == 1 && EndsIn(g, at.0, g.nodes[at.0].outputs[0])
  {
    ReaderIsLive(g, used, v, at);
    forall m: NodeId, i: nat | g.ReadsAt(m, i, v) ensures m == at.0 && i == 0 {
      assert IndexedAt(used, m, i, v);
      OnlyMember(used[v], (m, i), at);
    }
  }

  lemma FoldableAppend(g: Graph, path: seq<NodeId>, n: NodeId)
    requires forall k :: 0 <= k < |path| ==> FoldableAt(g, path, k)
    requires IsViewAt(g, n) && IsReinterpretOrContiguous(g.nodes[n]) && SoleReader(g, g.nodes[n].inputs[0].value, n)
    ensures forall k :: 0 <= k < |path + [n]| ==> FoldableAt(g, path + [n], k)
  {
    forall k | 0 <= k < |path| ensures FoldableAt(g, path + [n], k) {
      assert FoldableAt(g, path, k);
    }
  }

  lemma EdgeToReader(g: Graph, n: NodeId, reader: NodeId, v: ValueId)
    requires EndsIn(g, n, v) && g.Live(reader) && g.nodes[reader].inputs != [] && g.nodes[reader].inputs[0] == Some(v)
    ensures g.Edge(n, reader)
  {
    assert g.nodes[reader].Reads(v);
  }

  ghost function Highest(rank: seq<nat>): (top: nat)
    ensures forall k :: 0 <= k < |rank| ==> rank[k] <= top
  {
    if rank == [] then 0
    else
      var rest := Highest(rank[..|rank| - 1]);
      if rest < rank[|rank| - 1] then rank[|rank| - 1] else rest
  }
}
