/** The two indexes over a graph: which places read a value, and which output slot defines it. */
module UseDefIndex {
  import opened GraphModel

  /** A node and one of its input or output slots. */
  type Place = (NodeId, nat)

  type DefIndex = map<ValueId, Place>

  ghost predicate NoEmptyRow(used: UseIndex) {
    forall v: ValueId :: v in used ==> used[v] != {}
  }

  function AddUse(used: UseIndex, v: ValueId, at: Place): (r: UseIndex)
    ensures forall u: ValueId, n: NodeId, i: nat :: IndexedAt(r, n, i, u) <==> IndexedAt(used, n, i, u) || (u == v && (n, i) == at)
    ensures NoEmptyRow(used) ==> NoEmptyRow(r)
  {
    used[v := (if v in used then used[v] else {}) + {at}]
  }

  function RemoveUse(used: UseIndex, v: ValueId, at: Place): (r: UseIndex)
    requires v in used
    ensures forall u: ValueId, n: NodeId, i: nat :: IndexedAt(r, n, i, u) <==> IndexedAt(used, n, i, u) && !(u == v && (n, i) == at)
    ensures NoEmptyRow(used) ==> NoEmptyRow(r)
  {
    var row := used[v] - {at};
    assert forall p: Place :: p in used[v] ==> p in row || p == at;
    if row == {} then used - {v} else used[v := row]
  }

  /** Moves the given readers from one value to another. */
  function MoveUses(used: UseIndex, from: ValueId, to: ValueId, places: set<Place>): (r: UseIndex)
    requires from in used && places <= used[from] && places != {}
    ensures NoEmptyRow(used) ==> NoEmptyRow(r)
  {
    var row := used[from] - places;
    var rest := if row == {} then used - {from} else used[from := row];
    rest[to := (if to in rest then rest[to] else {}) + places]
  }

  lemma MovedUses(used: UseIndex, from: ValueId, to: ValueId, places: set<Place>, n: NodeId, i: nat, u: ValueId)
    requires from in used && places <= used[from] && places != {}
    requires (n, i) in places && IndexedAt(used, n, i, u) ==> u == from
    ensures IndexedAt(MoveUses(used, from, to, places), n, i, u) <==> if (n, i) in places then u == to else IndexedAt(used, n, i, u)
  {
    var row := used[from] - places;
    assert (n, i) in used[from] ==> (n, i) in row || (n, i) in places;
    var p: Place :| p in places;
  }

  // ----- the use index from the graph -----

  /** The index holds exactly the reading places before slot k of node id, in graph order. */
  ghost predicate IndexesBefore(g: Graph, used: UseIndex, id: NodeId, k: nat) {
    && NoEmptyRow(used)
    && forall v: ValueId, n: NodeId, i: nat :: IndexedAt(used, n, i, v) <==> g.ReadsAt(n, i, v) && (n < id || (n == id && i < k))
  }

  method RecordUses(g: Graph, used: UseIndex, id: NodeId) returns (used': UseIndex)
    requires g.Live(id) && IndexesBefore(g, used, id, 0)
    ensures IndexesBefore(g, used', id + 1, 0)
  {
    used' := used;
    var inputs := g.nodes[id].inputs;
    for i := 0 to |inputs|
      invariant IndexesBefore(g, used', id, i)
    {
      if inputs[i].Some? {
        used' := AddUse(used', inputs[i].value, (id, i));
      }
    }
  }

  // ----- the definition index from the graph -----

  predicate DefinesAt(g: Graph, at: Place, v: ValueId) {
    g.Live(at.0) && at.1 < |g.nodes[at.0].outputs| && g.nodes[at.0].outputs[at.1] == v
  }

  /** Every entry names a live defining slot, and every value with one has an entry. */
  ghost predicate IndexesDefinitions(g: Graph, defined: DefIndex) {
    && (forall v: ValueId :: v in defined ==> DefinesAt(g, defined[v], v))
    && (forall v: ValueId, at: Place :: DefinesAt(g, at, v) ==> v in defined)
  }

  /** The definitions after a node's outputs are recorded. */
  ghost predicate Recorded(defined: DefIndex, defined': DefIndex, outputs: seq<ValueId>, id: NodeId, k: nat)
    requires k <= |outputs|
  {
    && (forall v: ValueId :: v in defined' ==>
          (v in defined && defined'[v] == defined[v] && v !in outputs[..k]) ||
          (defined'[v].0 == id && defined'[v].1 < k && outputs[defined'[v].1] == v))
    && (forall v: ValueId :: v in defined || v in outputs[..k] ==> v in defined')
  }

  method RecordDefinitions(defined: DefIndex, outputs: seq<ValueId>, id: NodeId) returns (defined': DefIndex)
    ensures Recorded(defined, defined', outputs, id, |outputs|)
  {
    defined' := defined;
    for i := 0 to |outputs|
      invariant Recorded(defined, defined', outputs, id, i)
    {
      assert outputs[..i + 1] == outputs[..i] + [outputs[i]];
      defined' := defined'[outputs[i] := (id, i)];
    }
  }

  ghost predicate DefinitionsBefore(g: Graph, defined: DefIndex, id: NodeId) {
    && (forall v: ValueId :: v in defined ==> DefinesAt(g, defined[v], v))
    && (forall v: ValueId, at: Place :: DefinesAt(g, at, v) && at.0 < id ==> v in defined)
  }

  lemma RecordedBefore(g: Graph, defined: DefIndex, defined': DefIndex, id: NodeId)
    requires g.Live(id) && DefinitionsBefore(g, defined, id)
    requires Recorded(defined, defined', g.nodes[id].outputs, id, |g.nodes[id].outputs|)
    ensures DefinitionsBefore(g, defined', id + 1)
  {
    var outputs := g.nodes[id].outputs;
    assert outputs[..|outputs|] == outputs;
  }

  /** Both indexes, built from the graph. */
  method CalcValue2xx(g: Graph) returns (defined: DefIndex, used: UseIndex)
    ensures IndexesDefinitions(g, defined) && IndexesUses(g, used)
  {
    defined, used := map[], map[];
    for id := 0 to |g.nodes|
      invariant IndexesBefore(g, used, id, 0) && DefinitionsBefore(g, defined, id)
    {
      if !g.nodes[id].deleted {
        used := RecordUses(g, used, id);
        ghost var before := defined;
        defined := RecordDefinitions(defined, g.nodes[id].outputs, id);
        RecordedBefore(g, before, defined, id);
      }
    }
  }

  /** The indexes leave no choice: two that agree with the same graph are equal. */
  lemma UseIndexIsUnique(g: Graph, a: UseIndex, b: UseIndex)
    requires IndexesUses(g, a) && IndexesUses(g, b)
    ensures a == b
  {
    forall v: ValueId | v in a || v in b
      ensures v in a && v in b && a[v] == b[v]
    {
      SameRow(g, a, b, v);
      SameRow(g, b, a, v);
    }
  }

  lemma SameRow(g: Graph, a: UseIndex, b: UseIndex, v: ValueId)
    requires IndexesUses(g, a) && IndexesUses(g, b)
    ensures v in a ==> v in b && a[v] <= b[v]
  {
    if v in a {
      forall at: Place | at in a[v] ensures v in b && at in b[v] {
        assert IndexedAt(a, at.0, at.1, v);
        assert IndexedAt(b, at.0, at.1, v);
      }
      var at: Place :| at in a[v];
    }
  }

  lemma DefinitionIndexIsUnique(g: Graph, a: DefIndex, b: DefIndex)
    requires g.SingleDefinition() && IndexesDefinitions(g, a) && IndexesDefinitions(g, b)
    ensures a == b
  {
    forall v: ValueId | v in a || v in b
      ensures v in a && v in b && a[v] == b[v]
    {
      assert v in a ==> DefinesAt(g, a[v], v);
      assert v in b ==> DefinesAt(g, b[v], v);
      DefiningPlaceIsUnique(g, a[v], b[v], v);
    }
  }

  lemma DefiningPlaceIsUnique(g: Graph, a: Place, b: Place, v: ValueId)
    requires g.SingleDefinition() && DefinesAt(g, a, v) && DefinesAt(g, b, v)
    ensures a == b
  {
    assert g.Defines(a.0, v) && g.Defines(b.0, v);
  }
}
