/** What rewriting a graph does to its two indexes. */
module GraphIndex {
  import opened Options
  import opened GraphModel
  import opened UseDefIndex

  // ----- what a rewrite needs of the definition index -----

  /** The definition index names a live node that defines v. */
  predicate Resolved(g: Graph, defined: DefIndex, v: ValueId) {
    v in g.initializers || (v in defined && DefinesAt(g, defined[v], v))
  }

  ghost predicate ReadsResolve(g: Graph, defined: DefIndex) {
    forall n: NodeId, i: nat, v: ValueId :: g.ReadsAt(n, i, v) ==> Resolved(g, defined, v)
  }

  /** The entries of values that computing nodes define are right. */
  ghost predicate DefinitionsRight(g: Graph, defined: DefIndex) {
    forall at: Place, v: ValueId :: DefinesAt(g, at, v) && g.Computes(at.0) ==> v in defined && defined[v] == at
  }

  ghost predicate Sound(g: Graph, defined: DefIndex) {
    g.SingleDefinition() && ReadsResolve(g, defined) && DefinitionsRight(g, defined)
  }

  /** Sound, and no initial tensor has an entry; entries of deleted nodes may be left over. */
  ghost predicate Tracks(g: Graph, defined: DefIndex) {
    Sound(g, defined) && forall v: ValueId :: v in g.initializers ==> v !in defined
  }

  /** No node defines the value of an initial tensor. */
  ghost predicate InitializersFree(g: Graph) {
    forall n: NodeId, v: ValueId :: g.Defines(n, v) ==> v !in g.initializers
  }

  /** An output node reads the value it names and nothing else. */
  ghost predicate OutputsNamed(g: Graph) {
    forall n: NodeId :: g.Live(n) && g.nodes[n].op.Output? ==> g.nodes[n].inputs == [Some(g.nodes[n].op.v)]
  }

  lemma FreshIsSound(g: Graph, defined: DefIndex)
    requires g.Closed() && g.SingleDefinition() && IndexesDefinitions(g, defined)
    ensures Sound(g, defined)
  {
    forall n: NodeId, i: nat, v: ValueId | g.ReadsAt(n, i, v) ensures Resolved(g, defined, v) {
      assert g.Uses(n, v);
      if v !in g.initializers {
        var d: NodeId :| g.Defines(d, v);
        var j: nat :| j < |g.nodes[d].outputs| && g.nodes[d].outputs[j] == v;
        assert DefinesAt(g, (d, j), v);
      }
    }
    forall at: Place, v: ValueId | DefinesAt(g, at, v) && g.Computes(at.0) ensures v in defined && defined[v] == at {
      DefiningPlaceIsUnique(g, at, defined[v], v);
    }
  }

  lemma FreshTracks(g: Graph, defined: DefIndex)
    requires g.Closed() && g.SingleDefinition() && InitializersFree(g) && IndexesDefinitions(g, defined)
    ensures Tracks(g, defined)
  {
    FreshIsSound(g, defined);
    forall v: ValueId | v in g.initializers ensures v !in defined {
      if v in defined {
        assert g.Defines(defined[v].0, v);
      }
    }
  }

  // ----- rewired graphs -----

  /** The node with the given slots turned to read v; an output node also names v. */
  function RewiredNode(node: Node, n: NodeId, places: set<Place>, v: ValueId): (r: Node)
    ensures |r.inputs| == |node.inputs| && r.outputs == node.outputs && r.deleted == node.deleted
  {
    node.(inputs := seq(|node.inputs|, i requires 0 <= i < |node.inputs| => if (n, i) in places then Some(v) else node.inputs[i]),
          op := if node.op.Output? && (n, 0) in places then Output(v) else node.op)
  }

  function Rewired(g: Graph, places: set<Place>, v: ValueId): (r: Graph)
    ensures |r.nodes| == |g.nodes| && r.initializers == g.initializers
  {
    g.(nodes := seq(|g.nodes|, n requires 0 <= n < |g.nodes| => RewiredNode(g.nodes[n], n, places, v)))
  }

  lemma RewiredReads(g: Graph, places: set<Place>, v: ValueId, n: NodeId, i: nat, u: ValueId)
    requires (n, i) in places ==> g.Live(n) && i < |g.nodes[n].inputs|
    ensures Rewired(g, places, v).ReadsAt(n, i, u) <==> if (n, i) in places then u == v else g.ReadsAt(n, i, u)
  {
  }

  lemma RewiredDefines(g: Graph, places: set<Place>, v: ValueId, at: Place, u: ValueId)
    ensures DefinesAt(Rewired(g, places, v), at, u) <==> DefinesAt(g, at, u)
    ensures Rewired(g, places, v).Computes(at.0) <==> g.Computes(at.0)
    ensures Rewired(g, places, v).Defines(at.0, u) <==> g.Defines(at.0, u)
  {
  }

  /** Slot by slot: the given slots read v, all others and all else stay, and an output node
      whose slot is turned names v. */
  lemma RewiredSlots(g: Graph, places: set<Place>, v: ValueId, n: NodeId)
    requires n < |g.nodes|
    ensures var node, node' := g.nodes[n], Rewired(g, places, v).nodes[n];
            && |node'.inputs| == |node.inputs| && node'.outputs == node.outputs && node'.deleted == node.deleted
            && (forall i: nat :: i < |node.inputs| ==> node'.inputs[i] == if (n, i) in places then Some(v) else node.inputs[i])
            && node'.op == if node.op.Output? && (n, 0) in places then Output(v) else node.op
    ensures |Rewired(g, places, v).nodes| == |g.nodes| && Rewired(g, places, v).initializers == g.initializers
  {
  }

  /** Turning some reads to a resolved value keeps the definition index sound. */
  lemma RewiredIsSound(g: Graph, defined: DefIndex, places: set<Place>, v: ValueId)
    requires Sound(g, defined) && Resolved(g, defined, v)
    requires forall at: Place :: at in places ==> g.Live(at.0) && at.1 < |g.nodes[at.0].inputs|
    ensures Sound(Rewired(g, places, v), defined)
  {
    var g' := Rewired(g, places, v);
    forall u: ValueId | Resolved(g, defined, u) ensures Resolved(g', defined, u) {
      if u in defined {
        RewiredDefines(g, places, v, defined[u], u);
      }
    }
    forall n: NodeId, i: nat, u: ValueId | g'.ReadsAt(n, i, u) ensures Resolved(g', defined, u) {
      RewiredReads(g, places, v, n, i, u);
    }
    forall at: Place, u: ValueId | DefinesAt(g', at, u) && g'.Computes(at.0) ensures u in defined && defined[u] == at {
      RewiredDefines(g, places, v, at, u);
    }
    SameDefinitions(g, g');
  }

  lemma SameDefinitions(g: Graph, g': Graph)
    requires g.SingleDefinition() && |g'.nodes| == |g.nodes|
    requires forall n :: 0 <= n < |g.nodes| ==> g'.nodes[n].outputs == g.nodes[n].outputs
    requires forall n :: 0 <= n < |g.nodes| ==> (g.nodes[n].deleted ==> g'.nodes[n].deleted)
    ensures g'.SingleDefinition()
  {
    forall a: NodeId, b: NodeId, v: ValueId | g'.Defines(a, v) && g'.Defines(b, v) ensures a == b {
      assert g.Defines(a, v) && g.Defines(b, v);
    }
  }

  /** The places that read v in a node that satisfies pred. */
  ghost function Readers(g: Graph, v: ValueId, pred: (NodeId, Node) -> bool): (r: set<Place>)
    ensures forall n: NodeId, i: nat :: (n, i) in r <==> g.ReadsAt(n, i, v) && pred(n, g.nodes[n])
  {
    set n: NodeId, i: nat | n < |g.nodes| && i < |g.nodes[n].inputs| && g.ReadsAt(n, i, v) && pred(n, g.nodes[n]) :: (n, i)
  }

  lemma RewireNothing(g: Graph, v: ValueId)
    ensures Rewired(g, {}, v) == g
  {
    forall n | 0 <= n < |g.nodes| ensures RewiredNode(g.nodes[n], n, {}, v) == g.nodes[n] {
      assert RewiredNode(g.nodes[n], n, {}, v).inputs == g.nodes[n].inputs;
    }
    assert Rewired(g, {}, v).nodes == g.nodes;
  }

  /** One more place is turned. */
  lemma RewireOneMore(g: Graph, done: set<Place>, at: Place, v: ValueId)
    requires g.Live(at.0) && at.1 < |g.nodes[at.0].inputs| && at !in done
    ensures var node := Rewired(g, done, v).nodes[at.0];
            Rewired(g, done + {at}, v).nodes == Rewired(g, done, v).nodes[at.0 :=
              node.(inputs := node.inputs[at.1 := Some(v)], op := if node.op.Output? && at.1 == 0 then Output(v) else node.op)]
  {
    var more, now := Rewired(g, done + {at}, v).nodes, Rewired(g, done, v).nodes;
    assert more[at.0].inputs == now[at.0].inputs[at.1 := Some(v)];
    forall n | 0 <= n < |g.nodes| && n != at.0 ensures more[n] == now[n] {
      assert more[n].inputs == now[n].inputs;
    }
  }

  lemma RewiredIsNamed(g: Graph, places: set<Place>, v: ValueId)
    requires OutputsNamed(g)
    ensures OutputsNamed(Rewired(g, places, v))
  {
    var g' := Rewired(g, places, v);
    forall n: NodeId | g'.Live(n) && g'.nodes[n].op.Output? ensures g'.nodes[n].inputs == [Some(g'.nodes[n].op.v)] {
      assert g.nodes[n].inputs == [Some(g.nodes[n].op.v)];
    }
  }

  /** Moving the readers in the index is turning the places in the graph. */
  lemma RewiredUses(g: Graph, used: UseIndex, from: ValueId, to: ValueId, places: set<Place>)
    requires IndexesUses(g, used) && from in used && places <= used[from] && places != {}
    ensures IndexesUses(Rewired(g, places, to), MoveUses(used, from, to, places))
  {
    var g', used' := Rewired(g, places, to), MoveUses(used, from, to, places);
    forall n: NodeId, i: nat, u: ValueId ensures IndexedAt(used', n, i, u) <==> g'.ReadsAt(n, i, u) {
      assert IndexedAt(used, n, i, u) <==> g.ReadsAt(n, i, u);
      if (n, i) in places {
        assert IndexedAt(used, n, i, from);
      }
      MovedUses(used, from, to, places, n, i, u);
      RewiredReads(g, places, to, n, i, u);
    }
  }

  // ----- new nodes -----

  /** The node defines new values only, each once, and reads values that are there. */
  ghost predicate Extends(g: Graph, defined: DefIndex, node: Node) {
    && (forall i :: 0 <= i < |node.outputs| ==> forall n: NodeId :: !g.Defines(n, node.outputs[i]))
    && (forall i, j :: 0 <= i < j < |node.outputs| ==> node.outputs[i] != node.outputs[j])
    && (forall i :: 0 <= i < |node.inputs| && node.inputs[i].Some? ==> Resolved(g, defined, node.inputs[i].value))
  }

  lemma RegisteredIsSound(g: Graph, defined: DefIndex, node: Node, defined': DefIndex)
    requires Sound(g, defined) && Extends(g, defined, node) && !node.deleted
    requires Recorded(defined, defined', node.outputs, |g.nodes|, |node.outputs|)
    ensures Sound(g.(nodes := g.nodes + [node]), defined')
  {
    var g' := g.(nodes := g.nodes + [node]);
    var outputs := node.outputs;
    assert outputs[..|outputs|] == outputs;
    forall at: Place, v: ValueId ensures DefinesAt(g', at, v) <==> DefinesAt(g, at, v) || (at.0 == |g.nodes| && at.1 < |outputs| && outputs[at.1] == v) {
    }
    forall v: ValueId | Resolved(g, defined, v) ensures Resolved(g', defined', v) {
      if v !in g.initializers {
        assert g.Defines(defined[v].0, v);
        assert v !in outputs;
      }
    }
    forall n: NodeId, i: nat, v: ValueId | g'.ReadsAt(n, i, v) ensures Resolved(g', defined', v) {
      assert n < |g.nodes| ==> g.ReadsAt(n, i, v);
    }
    forall at: Place, v: ValueId | DefinesAt(g', at, v) && g'.Computes(at.0) ensures v in defined' && defined'[v] == at {
      if at.0 < |g.nodes| {
        assert g.Defines(at.0, v);
        assert v !in outputs;
      }
    }
    RegisteredDefinesOnce(g, defined, node);
  }

  lemma RegisteredIsIndexed(g: Graph, defined: DefIndex, node: Node, defined': DefIndex)
    requires IndexesDefinitions(g, defined) && !node.deleted
    requires Recorded(defined, defined', node.outputs, |g.nodes|, |node.outputs|)
    ensures IndexesDefinitions(g.(nodes := g.nodes + [node]), defined')
  {
    var g' := g.(nodes := g.nodes + [node]);
    var outputs := node.outputs;
    assert outputs[..|outputs|] == outputs;
    forall v: ValueId, at: Place | DefinesAt(g', at, v) ensures v in defined' {
      assert at.0 < |g.nodes| ==> DefinesAt(g, at, v);
    }
  }

  lemma RewiredIsIndexed(g: Graph, defined: DefIndex, places: set<Place>, v: ValueId)
    requires IndexesDefinitions(g, defined)
    ensures IndexesDefinitions(Rewired(g, places, v), defined)
  {
    forall u: ValueId, at: Place ensures DefinesAt(Rewired(g, places, v), at, u) <==> DefinesAt(g, at, u) {
      RewiredDefines(g, places, v, at, u);
    }
  }

  lemma RegisteredDefinesOnce(g: Graph, defined: DefIndex, node: Node)
    requires g.SingleDefinition() && Extends(g, defined, node)
    ensures g.(nodes := g.nodes + [node]).SingleDefinition()
  {
    var g' := g.(nodes := g.nodes + [node]);
    forall a: NodeId, b: NodeId, v: ValueId | g'.Defines(a, v) && g'.Defines(b, v) ensures a == b {
      assert a < |g.nodes| ==> g.Defines(a, v);
      assert b < |g.nodes| ==> g.Defines(b, v);
    }
  }

  // ----- one input slot -----

  function Longer(a: nat, b: nat): nat {
    if a < b then b else a
  }

  function PaddedTo(inputs: seq<Option<ValueId>>, n: nat): (r: seq<Option<ValueId>>)
    ensures |r| == Longer(|inputs|, n)
  {
    seq(Longer(|inputs|, n), i requires 0 <= i => if i < |inputs| then inputs[i] else None)
  }

  function WithInput(g: Graph, id: NodeId, index: nat, input: Option<ValueId>): Graph
    requires g.Live(id)
  {
    g.(nodes := g.nodes[id := g.nodes[id].(inputs := PaddedTo(g.nodes[id].inputs, index + 1)[index := input])])
  }

  /** Slot by slot: the one slot is set, slots before it that were not there are empty, and all
      else stays. */
  lemma InputSetSlots(g: Graph, id: NodeId, index: nat, input: Option<ValueId>, n: NodeId, i: nat)
    requires id < |g.nodes| && !g.nodes[id].deleted && n < |g.nodes|
    ensures var g' := WithInput(g, id, index, input);
            && |g'.nodes| == |g.nodes| && g'.initializers == g.initializers && (n != id ==> g'.nodes[n] == g.nodes[n])
            && g'.nodes[id].outputs == g.nodes[id].outputs && g'.nodes[id].op == g.nodes[id].op && !g'.nodes[id].deleted
            && |g'.nodes[id].inputs| == (if |g.nodes[id].inputs| <= index then index + 1 else |g.nodes[id].inputs|)
            && g'.nodes[id].inputs[index] == input
            && (i < |g.nodes[id].inputs| && i != index ==> g'.nodes[id].inputs[i] == g.nodes[id].inputs[i])
            && (|g.nodes[id].inputs| <= i < index ==> g'.nodes[id].inputs[i] == None)
  {
  }

  lemma InputSet(g: Graph, id: NodeId, index: nat, input: Option<ValueId>)
    requires g.Live(id)
    ensures forall n: NodeId, i: nat, u: ValueId ::
              WithInput(g, id, index, input).ReadsAt(n, i, u) <==> if n == id && i == index then input == Some(u) else g.ReadsAt(n, i, u)
  {
  }

  /** The index without the place holds exactly the other reading places. */
  lemma InputCleared(g: Graph, used: UseIndex, id: NodeId, index: nat, used': UseIndex)
    requires g.Live(id) && IndexesUses(g, used)
    requires if index < |g.nodes[id].inputs| && g.nodes[id].inputs[index].Some?
             then g.nodes[id].inputs[index].value in used && used' == RemoveUse(used, g.nodes[id].inputs[index].value, (id, index))
             else used' == used
    ensures NoEmptyRow(used')
    ensures forall u: ValueId, n: NodeId, i: nat :: IndexedAt(used', n, i, u) <==> g.ReadsAt(n, i, u) && (n, i) != (id, index)
  {
    assert NoEmptyRow(used);
    forall u: ValueId, n: NodeId, i: nat
      ensures IndexedAt(used', n, i, u) <==> g.ReadsAt(n, i, u) && (n, i) != (id, index)
    {
      assert IndexedAt(used, n, i, u) <==> g.ReadsAt(n, i, u);
    }
  }

  lemma InputSetIsSound(g: Graph, defined: DefIndex, id: NodeId, index: nat, input: Option<ValueId>)
    requires g.Live(id) && Sound(g, defined) && (input.Some? ==> Resolved(g, defined, input.value))
    ensures Sound(WithInput(g, id, index, input), defined)
  {
    var g' := WithInput(g, id, index, input);
    assert forall at: Place, v: ValueId :: DefinesAt(g', at, v) <==> DefinesAt(g, at, v);
    assert forall v: ValueId :: Resolved(g, defined, v) ==> Resolved(g', defined, v);
    forall n: NodeId, i: nat, v: ValueId | g'.ReadsAt(n, i, v) ensures Resolved(g', defined, v) {
      InputSet(g, id, index, input);
    }
    SameDefinitions(g, g');
  }

  lemma ReadersAreIndexed(g: Graph, used: UseIndex, v: ValueId, pred: (NodeId, Node) -> bool, changed: set<Place>)
    requires IndexesUses(g, used)
    requires forall at: Place :: at in changed <==> IndexedAt(used, at.0, at.1, v) && pred(at.0, g.nodes[at.0])
    ensures changed == Readers(g, v, pred)
  {
    forall at: Place ensures at in changed <==> at in Readers(g, v, pred) {
      assert IndexedAt(used, at.0, at.1, v) <==> g.ReadsAt(at.0, at.1, v);
    }
  }
}
