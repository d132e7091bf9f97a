/** Structural comparison of two graphs through a pair of one-to-one correspondences. */
module StructuralEquivalence {
  import opened Options
  import opened GraphModel

  /** What the comparison reads of a graph: input and output values, initial tensors, declared
      types, and the node and output slot that define each value. */
  datatype GraphInfo<T> = GraphInfo(nodes: seq<Node>, inputs: seq<ValueId>, outputs: seq<ValueId>,
                                    initializer: map<ValueId, T>, types: map<ValueId, string>,
                                    defined: map<ValueId, (NodeId, nat)>)
  {
    ghost predicate Known(v: ValueId) {
      v in initializer || v in inputs || v in defined
    }

    /** The defining places exist, and every value a defining node reads is known. */
    ghost predicate Closed() {
      && (forall v: ValueId :: v in defined ==> defined[v].0 < |nodes|)
      && (forall v: ValueId, i: nat :: v in defined && i < |nodes[defined[v].0].inputs| ==> KnownAt(defined[v].0, i))
      && (forall i :: 0 <= i < |outputs| ==> Known(outputs[i]))
    }

    ghost predicate KnownAt(n: NodeId, i: nat)
      requires n < |nodes| && i < |nodes[n].inputs|
    {
      nodes[n].inputs[i].Some? ==> Known(nodes[n].inputs[i].value)
    }

    /** The declared type of a value, if it has one. */
    function TypeOf(v: ValueId): Option<string> {
      if v in types then Some(types[v]) else None
    }

    /** A definition reads only values of lower rank. */
    ghost predicate Ranked(rank: ValueId -> nat)
      requires Closed()
    {
      forall v: ValueId, i: nat :: v in defined && i < |nodes[defined[v].0].inputs| ==> Lower(rank, v, i)
    }

    ghost predicate Lower(rank: ValueId -> nat, v: ValueId, i: nat)
      requires Closed() && v in defined && i < |nodes[defined[v].0].inputs|
    {
      var u := nodes[defined[v].0].inputs[i];
      u.Some? ==> rank(u.value) < rank(v)
    }

    ghost predicate Acyclic()
      requires Closed()
    {
      exists rank: ValueId -> nat :: Ranked(rank)
    }
  }

  function Position(vs: seq<ValueId>, v: ValueId): (p: Option<nat>)
    ensures p.Some? <==> v in vs
    ensures p.Some? ==> p.value < |vs| && vs[p.value] == v && v !in vs[..p.value]
  {
    if vs == [] then None
    else if vs[0] == v then Some(0)
    else
      match Position(vs[1..], v)
      case None => None
      case Some(i) => Some(i + 1)
  }

  // ----- one-to-one correspondences built step by step -----

  class Bijective {
    var left2right: map<nat, nat>
    var right2left: map<nat, nat>

    ghost predicate Valid()
      reads this
    {
      && (forall l :: l in left2right ==> left2right[l] in right2left && right2left[left2right[l]] == l)
      && (forall r :: r in right2left ==> right2left[r] in left2right && left2right[right2left[r]] == r)
    }

    constructor ()
      ensures Valid() && left2right == map[]
    {
      left2right, right2left := map[], map[];
    }

    /** Adds a pair unless it contradicts one already there. */
    method Add(left: nat, right: nat) returns (ok: bool)
      requires Valid()
      modifies this
      ensures Valid()
      ensures ok <==> Agrees(old(left2right), left, right)
      ensures left in old(left2right) ==> (ok <==> old(left2right)[left] == right)
      ensures left !in old(left2right) ==> (ok <==> right !in old(left2right).Values)
      ensures ok ==> left in left2right && left2right[left] == right
      ensures left2right == if ok && left !in old(left2right) then old(left2right)[left := right] else old(left2right)
    {
      if left in left2right {
        ok := left2right[left] == right;
        return;
      }
      if right in right2left {
        assert left2right[right2left[right]] == right;
        return false;
      }
      left2right := left2right[left := right];
      right2left := right2left[right := left];
      ok := true;
    }

    function Get(left: nat): Option<nat>
      reads this
    {
      if left in left2right then Some(left2right[left]) else None
    }
  }

  type Pairs = map<nat, nat>

  ghost predicate OneToOne(p: Pairs) {
    forall a, b :: a in p && b in p && p[a] == p[b] ==> a == b
  }

  ghost predicate Within(p: Pairs, q: Pairs) {
    forall a :: a in p ==> a in q && q[a] == p[a]
  }

  /** Adding the pair keeps the correspondence one-to-one and single-valued. */
  predicate Agrees(p: Pairs, l: nat, r: nat) {
    if l in p then p[l] == r else forall k :: k in p ==> p[k] != r
  }

  lemma AgreesWithin(p: Pairs, q: Pairs, l: nat, r: nat)
    requires OneToOne(q) && Within(p, q) && l in q && q[l] == r
    ensures Agrees(p, l, r) && Within(p[l := r], q)
  {
  }

  // ----- isomorphism -----

  /** Input slots correspond: both missing, or both given and paired. */
  ghost predicate SlotPaired(l: Option<ValueId>, r: Option<ValueId>, values: Pairs) {
    l.Some? == r.Some? && (l.Some? ==> l.value in values && values[l.value] == r.value)
  }

  ghost predicate SlotsPaired(ls: seq<Option<ValueId>>, rs: seq<Option<ValueId>>, n: nat, values: Pairs)
    requires n <= |ls| == |rs|
  {
    forall i :: 0 <= i < n ==> SlotPaired(ls[i], rs[i], values)
  }

  ghost predicate NodesPaired<T>(left: GraphInfo<T>, right: GraphInfo<T>, values: Pairs, n: NodeId, n': NodeId) {
    && n < |left.nodes| && n' < |right.nodes|
    && left.nodes[n].op == right.nodes[n'].op
    && |left.nodes[n].inputs| == |right.nodes[n'].inputs|
    && SlotsPaired(left.nodes[n].inputs, right.nodes[n'].inputs, |left.nodes[n].inputs|, values)
  }

  /** Equal initial tensors, the same input position, or the same output slot of paired nodes. */
  ghost predicate ValuesPaired<T>(left: GraphInfo<T>, right: GraphInfo<T>, nodes: Pairs, v: ValueId, v': ValueId) {
    if v in left.initializer || v' in right.initializer then
      v in left.initializer && v' in right.initializer && left.initializer[v] == right.initializer[v']
    else if v in left.inputs || v' in right.inputs then Position(left.inputs, v) == Position(right.inputs, v')
    else
      && v in left.defined && v' in right.defined && left.defined[v].1 == right.defined[v'].1
      && left.defined[v].0 in nodes && nodes[left.defined[v].0] == right.defined[v'].0
  }

  ghost predicate Consistent<T>(left: GraphInfo<T>, right: GraphInfo<T>, values: Pairs, nodes: Pairs) {
    && (forall v :: v in values ==> ValuesPaired(left, right, nodes, v, values[v]))
    && (forall n :: n in nodes ==> NodesPaired(left, right, values, n, nodes[n]))
  }

  /** An isomorphism between the parts of the graphs it covers, keeping operators, argument
      order and positions. */
  ghost predicate Isomorphism<T>(left: GraphInfo<T>, right: GraphInfo<T>, values: Pairs, nodes: Pairs) {
    OneToOne(values) && OneToOne(nodes) && Consistent(left, right, values, nodes)
  }

  // ----- the comparison -----

  /** The pairs of an isomorphism. */
  datatype Iso = Iso(values: Pairs, nodes: Pairs) {
    ghost predicate Between<T>(left: GraphInfo<T>, right: GraphInfo<T>) {
      Isomorphism(left, right, values, nodes)
    }

    ghost predicate Pairs(l: ValueId, r: ValueId) {
      l in values && values[l] == r
    }

    /** An isomorphism that pairs node n of the left graph with node n' of the right one, or at
        least their inputs. */
    ghost predicate Matches<T>(left: GraphInfo<T>, right: GraphInfo<T>, n: NodeId, n': NodeId) {
      Between(left, right) && NodesPaired(left, right, values, n, n')
    }

    /** The pairs found so far belong to the isomorphism. */
    ghost predicate Covers(values': Pairs, nodes': Pairs) {
      Within(values', values) && Within(nodes', nodes)
    }
  }

  lemma SlotOf<T>(left: GraphInfo<T>, right: GraphInfo<T>, iso: Iso, n: NodeId, n': NodeId, i: nat)
    requires iso.Matches(left, right, n, n') && i < |left.nodes[n].inputs|
    ensures left.nodes[n].inputs[i].Some? == right.nodes[n'].inputs[i].Some?
    ensures left.nodes[n].inputs[i].Some? ==> iso.Pairs(left.nodes[n].inputs[i].value, right.nodes[n'].inputs[i].value)
  {
  }

  lemma DefinedInIso<T>(left: GraphInfo<T>, right: GraphInfo<T>, iso: Iso, l: ValueId, r: ValueId)
    requires iso.Between(left, right) && iso.Pairs(l, r) && l in left.defined && r in right.defined
    requires l !in left.initializer && r !in right.initializer && l !in left.inputs && r !in right.inputs
    ensures OneToOne(iso.nodes) && left.defined[l].0 in iso.nodes && iso.nodes[left.defined[l].0] == right.defined[r].0
    ensures left.defined[l].1 == right.defined[r].1
  {
    assert ValuesPaired(left, right, iso.nodes, l, r);
  }

  lemma DefinedPaired<T>(left: GraphInfo<T>, right: GraphInfo<T>, nodes: Pairs, l: ValueId, r: ValueId)
    requires l in left.defined && r in right.defined && left.defined[l].1 == right.defined[r].1
    requires l !in left.initializer && r !in right.initializer && l !in left.inputs && r !in right.inputs
    requires left.defined[l].0 in nodes && nodes[left.defined[l].0] == right.defined[r].0
    ensures ValuesPaired(left, right, nodes, l, r)
  {
  }

  lemma SlotsStayPaired(ls: seq<Option<ValueId>>, rs: seq<Option<ValueId>>, n: nat, values: Pairs, values': Pairs)
    requires n < |ls| == |rs| && Within(values, values')
    requires SlotsPaired(ls, rs, n, values) && SlotPaired(ls[n], rs[n], values')
    ensures SlotsPaired(ls, rs, n + 1, values')
  {
  }

  lemma AddValue<T>(left: GraphInfo<T>, right: GraphInfo<T>, values: Pairs, nodes: Pairs, v: ValueId, v': ValueId)
    requires Consistent(left, right, values, nodes) && v !in values && ValuesPaired(left, right, nodes, v, v')
    ensures Consistent(left, right, values[v := v'], nodes)
  {
    hide ValuesPaired;
    forall n | n in nodes ensures NodesPaired(left, right, values[v := v'], n, nodes[n]) {
      assert NodesPaired(left, right, values, n, nodes[n]);
    }
  }

  lemma AddNode<T>(left: GraphInfo<T>, right: GraphInfo<T>, values: Pairs, nodes: Pairs, n: NodeId, n': NodeId)
    requires Consistent(left, right, values, nodes) && n !in nodes && NodesPaired(left, right, values, n, n')
    ensures Consistent(left, right, values, nodes[n := n'])
  {
    forall v | v in values ensures ValuesPaired(left, right, nodes[n := n'], v, values[v]) {
      assert ValuesPaired(left, right, nodes, v, values[v]);
    }
  }

  ghost predicate Extends(values: Pairs, nodes: Pairs, values': Pairs, nodes': Pairs) {
    Within(values, values') && Within(nodes, nodes')
  }

  lemma ExtendsFurther(values: Pairs, nodes: Pairs, values': Pairs, nodes': Pairs, values'': Pairs, nodes'': Pairs)
    requires Extends(values, nodes, values', nodes') && Extends(values', nodes', values'', nodes'')
    ensures Extends(values, nodes, values'', nodes'')
  {
  }

  ghost predicate ListsPaired(ls: seq<ValueId>, rs: seq<ValueId>, n: nat, values: Pairs)
    requires n <= |ls| == |rs|
  {
    forall i :: 0 <= i < n ==> ls[i] in values && values[ls[i]] == rs[i]
  }

  /** The isomorphism pairs the outputs of the two graphs in order. */
  ghost predicate PairsOutputs<T>(left: GraphInfo<T>, right: GraphInfo<T>, iso: Iso) {
    && |left.outputs| == |right.outputs| && iso.Between(left, right)
    && ListsPaired(left.outputs, right.outputs, |left.outputs|, iso.values)
  }

  lemma OutputOf<T>(left: GraphInfo<T>, right: GraphInfo<T>, iso: Iso, i: nat)
    requires PairsOutputs(left, right, iso) && i < |left.outputs|
    ensures iso.Between(left, right) && iso.Pairs(left.outputs[i], right.outputs[i])
  {
  }

  lemma ListsStayPaired(ls: seq<ValueId>, rs: seq<ValueId>, n: nat, values: Pairs, values': Pairs)
    requires n < |ls| == |rs| && ListsPaired(ls, rs, n, values) && Within(values, values')
    requires ls[n] in values' && values'[ls[n]] == rs[n]
    ensures ListsPaired(ls, rs, n + 1, values')
  {
  }

  ghost predicate Isomorphic<T>(left: GraphInfo<T>, right: GraphInfo<T>) {
    exists iso: Iso :: PairsOutputs(left, right, iso)
  }

  class Comparison<T(==)> {
    const left: GraphInfo<T>
    const right: GraphInfo<T>
    const valueEq: Bijective
    const nodeEq: Bijective

    ghost predicate Valid()
      reads this, valueEq, nodeEq
    {
      && valueEq != nodeEq && valueEq.Valid() && nodeEq.Valid()
      && left.Closed() && right.Closed() && left.Acyclic()
      && Consistent(left, right, valueEq.left2right, nodeEq.left2right)
    }

    constructor (left: GraphInfo<T>, right: GraphInfo<T>)
      requires left.Closed() && right.Closed() && left.Acyclic()
      ensures Valid() && fresh(valueEq) && fresh(nodeEq)
      ensures this.left == left && this.right == right
      ensures valueEq.left2right == map[] && nodeEq.left2right == map[]
    {
      this.left, this.right := left, right;
      valueEq := new Bijective();
      nodeEq := new Bijective();
    }

    /** Records a pair of values that correspond. */
    method PairValues(l: ValueId, r: ValueId, ghost iso: Iso) returns (ok: bool)
      requires Valid() && ValuesPaired(left, right, nodeEq.left2right, l, r)
      modifies valueEq
      ensures Valid() && Extends(old(valueEq.left2right), old(nodeEq.left2right), valueEq.left2right, nodeEq.left2right)
      ensures ok ==> l in valueEq.left2right && valueEq.left2right[l] == r
      ensures iso.Between(left, right) && iso.Pairs(l, r) && iso.Covers(old(valueEq.left2right), old(nodeEq.left2right)) ==>
                ok && iso.Covers(valueEq.left2right, nodeEq.left2right)
    {
      hide OneToOne, Agrees, Consistent, ValuesPaired, Bijective.Valid, GraphInfo.Closed;
      ghost var before := valueEq.left2right;
      if iso.Between(left, right) && iso.Pairs(l, r) && Within(before, iso.values) {
        AgreesWithin(before, iso.values, l, r);
      }
      ok := valueEq.Add(l, r);
      if l !in before && ok {
        AddValue(left, right, before, nodeEq.left2right, l, r);
      }
    }

    /** Records a pair of nodes that correspond. */
    method PairNodes(n: NodeId, n': NodeId, ghost iso: Iso) returns (ok: bool)
      requires Valid() && NodesPaired(left, right, valueEq.left2right, n, n')
      modifies nodeEq
      ensures Valid() && Extends(old(valueEq.left2right), old(nodeEq.left2right), valueEq.left2right, nodeEq.left2right)
      ensures ok ==> n in nodeEq.left2right && nodeEq.left2right[n] == n'
      ensures && iso.Between(left, right) && n in iso.nodes && iso.nodes[n] == n'
              && iso.Covers(old(valueEq.left2right), old(nodeEq.left2right)) ==>
                ok && iso.Covers(valueEq.left2right, nodeEq.left2right)
    {
      hide OneToOne, Agrees, Consistent, NodesPaired, Bijective.Valid, GraphInfo.Closed;
      ghost var before := nodeEq.left2right;
      if iso.Between(left, right) && n in iso.nodes && iso.nodes[n] == n' && Within(before, iso.nodes) {
        AgreesWithin(before, iso.nodes, n, n');
      }
      ok := nodeEq.Add(n, n');
      if n !in before && ok {
        AddNode(left, right, valueEq.left2right, before, n, n');
      }
    }

    /** Whether the values l and r correspond; extends the pairs found so far if they do.  It
        never contradicts an isomorphism that pairs l with r. */
    method CompValue(l: ValueId, r: ValueId, ghost rank: ValueId -> nat, ghost iso: Iso) returns (ok: bool)
      requires Valid() && left.Known(l) && right.Known(r) && left.Ranked(rank)
      modifies valueEq, nodeEq
      ensures Valid() && Extends(old(valueEq.left2right), old(nodeEq.left2right), valueEq.left2right, nodeEq.left2right)
      ensures ok ==> l in valueEq.left2right && valueEq.left2right[l] == r
      ensures iso.Between(left, right) && iso.Pairs(l, r) && iso.Covers(old(valueEq.left2right), old(nodeEq.left2right)) ==>
                ok && iso.Covers(valueEq.left2right, nodeEq.left2right)
      decreases rank(l), 3
    {
      if valueEq.Get(l) == Some(r) {
        return true;
      }
      if l in left.initializer || r in right.initializer {
        if l in left.initializer && r in right.initializer && left.initializer[l] == right.initializer[r] {
          ok := PairValues(l, r, iso);
        } else {
          ok := false;
        }
        return;
      }
      var lp, rp := Position(left.inputs, l), Position(right.inputs, r);
      if lp.Some? || rp.Some? {
        if lp == rp {
          ok := PairValues(l, r, iso);
        } else {
          ok := false;
        }
        return;
      }
      ok := CompDefined(l, r, rank, iso);
    }

    /** The comparison of the outputs in order: what it accepts is an isomorphism, and it never
        contradicts one that pairs the outputs. */
    method CompOutputs(ghost rank: ValueId -> nat, ghost iso: Iso) returns (ok: bool)
      requires Valid() && left.Ranked(rank) && |left.outputs| == |right.outputs|
      requires valueEq.left2right == map[] && nodeEq.left2right == map[]
      modifies valueEq, nodeEq
      ensures ok ==> Isomorphic(left, right)
      ensures PairsOutputs(left, right, iso) ==> ok
    {
      for i := 0 to |left.outputs|
        invariant Valid()
        invariant ListsPaired(left.outputs, right.outputs, i, valueEq.left2right)
        invariant PairsOutputs(left, right, iso) ==> iso.Covers(valueEq.left2right, nodeEq.left2right)
      {
        hide Consistent, Bijective.Valid, Iso.Between, Iso.Covers, ListsPaired;
        ghost var before := valueEq.left2right;
        if PairsOutputs(left, right, iso) {
          OutputOf(left, right, iso, i);
        }
        ok := CompValue(left.outputs[i], right.outputs[i], rank, iso);
        if !ok {
          return;
        }
        ListsStayPaired(left.outputs, right.outputs, i, before, valueEq.left2right);
      }
      ok := true;
      assert PairsOutputs(left, right, Iso(valueEq.left2right, nodeEq.left2right));
    }

    /** The comparison of two values that nodes define. */
    method CompDefined(l: ValueId, r: ValueId, ghost rank: ValueId -> nat, ghost iso: Iso) returns (ok: bool)
      requires Valid() && l in left.defined && r in right.defined && left.Ranked(rank)
      requires l !in left.initializer && r !in right.initializer && l !in left.inputs && r !in right.inputs
      modifies valueEq, nodeEq
      ensures Valid() && Extends(old(valueEq.left2right), old(nodeEq.left2right), valueEq.left2right, nodeEq.left2right)
      ensures ok ==> l in valueEq.left2right && valueEq.left2right[l] == r
      ensures iso.Between(left, right) && iso.Pairs(l, r) && iso.Covers(old(valueEq.left2right), old(nodeEq.left2right)) ==>
                ok && iso.Covers(valueEq.left2right, nodeEq.left2right)
      decreases rank(l), 2
    {
      var (ln, lidx) := left.defined[l];
      var (rn, ridx) := right.defined[r];
      if lidx != ridx {
        return false;
      }
      var known := nodeEq.Get(ln);
      if known.Some? {
        if known.value != rn {
          return false;
        }
        ok := PairValues(l, r, iso);
        return;
      }
      if left.nodes[ln].op != right.nodes[rn].op || |left.nodes[ln].inputs| != |right.nodes[rn].inputs| {
        return false;
      }
      ok := CompInputs(l, r, rank, iso);
      if !ok {
        return;
      }
      ok := PairDefined(l, r, iso);
    }

    /** Records the defining nodes, whose inputs correspond, and the values. */
    method PairDefined(l: ValueId, r: ValueId, ghost iso: Iso) returns (ok: bool)
      requires Valid() && l in left.defined && r in right.defined && left.defined[l].1 == right.defined[r].1
      requires l !in left.initializer && r !in right.initializer && l !in left.inputs && r !in right.inputs
      requires NodesPaired(left, right, valueEq.left2right, left.defined[l].0, right.defined[r].0)
      modifies valueEq, nodeEq
      ensures Valid() && Extends(old(valueEq.left2right), old(nodeEq.left2right), valueEq.left2right, nodeEq.left2right)
      ensures ok ==> l in valueEq.left2right && valueEq.left2right[l] == r
      ensures iso.Between(left, right) && iso.Pairs(l, r) && iso.Covers(old(valueEq.left2right), old(nodeEq.left2right)) ==>
                ok && iso.Covers(valueEq.left2right, nodeEq.left2right)
    {
      hide Isomorphism, Consistent, Bijective.Valid, GraphInfo.Closed, NodesPaired, ValuesPaired;
      if iso.Between(left, right) && iso.Pairs(l, r) {
        DefinedInIso(left, right, iso, l, r);
      }
      ok := PairNodes(left.defined[l].0, right.defined[r].0, iso);
      if ok {
        DefinedPaired(left, right, nodeEq.left2right, l, r);
        ok := PairValues(l, r, iso);
      }
    }

    /** The comparison of the inputs of the two nodes that define l and r. */
    method CompInputs(l: ValueId, r: ValueId, ghost rank: ValueId -> nat, ghost iso: Iso) returns (ok: bool)
      requires Valid() && l in left.defined && r in right.defined && left.Ranked(rank)
      requires |left.nodes[left.defined[l].0].inputs| == |right.nodes[right.defined[r].0].inputs|
      modifies valueEq, nodeEq
      ensures Valid() && Extends(old(valueEq.left2right), old(nodeEq.left2right), valueEq.left2right, nodeEq.left2right)
      ensures ok ==> SlotsPaired(left.nodes[left.defined[l].0].inputs, right.nodes[right.defined[r].0].inputs,
                                 |left.nodes[left.defined[l].0].inputs|, valueEq.left2right)
      ensures iso.Matches(left, right, left.defined[l].0, right.defined[r].0) &&
              iso.Covers(old(valueEq.left2right), old(nodeEq.left2right)) ==>
                ok && iso.Covers(valueEq.left2right, nodeEq.left2right)
      decreases rank(l), 1
    {
      var ls, rs := left.nodes[left.defined[l].0].inputs, right.nodes[right.defined[r].0].inputs;
      ghost var v0, n0 := valueEq.left2right, nodeEq.left2right;
      for i := 0 to |ls|
        invariant Valid() && Extends(v0, n0, valueEq.left2right, nodeEq.left2right)
        invariant SlotsPaired(ls, rs, i, valueEq.left2right)
        invariant iso.Matches(left, right, left.defined[l].0, right.defined[r].0) && iso.Covers(v0, n0) ==>
                    iso.Covers(valueEq.left2right, nodeEq.left2right)
      {
        hide Iso.Matches, Iso.Covers, Consistent, SlotPaired, SlotsPaired, Within, Bijective.Valid, GraphInfo.Closed, GraphInfo.Ranked;
        ghost var before, nodesBefore := valueEq.left2right, nodeEq.left2right;
        ok := CompInput(l, r, i, rank, iso);
        ExtendsFurther(v0, n0, before, nodesBefore, valueEq.left2right, nodeEq.left2right);
        if !ok {
          return;
        }
        SlotsStayPaired(ls, rs, i, before, valueEq.left2right);
      }
      ok := true;
    }

    /** The comparison of one pair of input slots. */
    method CompInput(l: ValueId, r: ValueId, i: nat, ghost rank: ValueId -> nat, ghost iso: Iso) returns (ok: bool)
      requires Valid() && l in left.defined && r in right.defined && left.Ranked(rank)
      requires i < |left.nodes[left.defined[l].0].inputs| == |right.nodes[right.defined[r].0].inputs|
      modifies valueEq, nodeEq
      ensures Valid() && Extends(old(valueEq.left2right), old(nodeEq.left2right), valueEq.left2right, nodeEq.left2right)
      ensures ok ==> SlotPaired(left.nodes[left.defined[l].0].inputs[i], right.nodes[right.defined[r].0].inputs[i], valueEq.left2right)
      ensures iso.Matches(left, right, left.defined[l].0, right.defined[r].0) &&
              iso.Covers(old(valueEq.left2right), old(nodeEq.left2right)) ==>
                ok && iso.Covers(valueEq.left2right, nodeEq.left2right)
      decreases rank(l), 0
    {
      var li, ri := left.nodes[left.defined[l].0].inputs[i], right.nodes[right.defined[r].0].inputs[i];
      assert left.KnownAt(left.defined[l].0, i) && right.KnownAt(right.defined[r].0, i) && left.Lower(rank, l, i);
      if iso.Matches(left, right, left.defined[l].0, right.defined[r].0) {
        SlotOf(left, right, iso, left.defined[l].0, right.defined[r].0, i);
      }
      hide Isomorphism, NodesPaired, Consistent, Bijective.Valid, GraphInfo.Closed;
      if li.Some? && ri.Some? {
        ok := CompValue(li.value, ri.value, rank, iso);
      } else {
        ok := li.None? && ri.None?;
      }
    }
  }

  // ----- the whole check -----

  predicate SameTypes<T>(left: GraphInfo<T>, right: GraphInfo<T>, ls: seq<ValueId>, rs: seq<ValueId>)
    requires |ls| == |rs|
  {
    forall i :: 0 <= i < |ls| ==> left.TypeOf(ls[i]) == right.TypeOf(rs[i])
  }

  /** As many inputs and outputs, pairwise of one type or both without one. */
  ghost predicate SameInterface<T>(left: GraphInfo<T>, right: GraphInfo<T>) {
    && |left.inputs| == |right.inputs| && |left.outputs| == |right.outputs|
    && SameTypes(left, right, left.inputs, right.inputs) && SameTypes(left, right, left.outputs, right.outputs)
  }

  /** As many inputs and outputs, pairwise with equal declared types or both without one. */
  ghost predicate SameDeclared<T>(left: GraphInfo<T>, right: GraphInfo<T>) {
    && |left.inputs| == |right.inputs| && |left.outputs| == |right.outputs|
    && (forall i :: 0 <= i < |left.inputs| ==>
          && (left.inputs[i] in left.types <==> right.inputs[i] in right.types)
          && (left.inputs[i] in left.types ==> left.types[left.inputs[i]] == right.types[right.inputs[i]]))
    && (forall i :: 0 <= i < |left.outputs| ==>
          && (left.outputs[i] in left.types <==> right.outputs[i] in right.types)
          && (left.outputs[i] in left.types ==> left.types[left.outputs[i]] == right.types[right.outputs[i]]))
  }

  /** A renaming of values and one of nodes, both one-to-one, that take the left graph's outputs
      to the right one's, as far back as its inputs and initial tensors. */
  ghost predicate Renames<T>(left: GraphInfo<T>, right: GraphInfo<T>, values: map<ValueId, ValueId>, nodes: map<NodeId, NodeId>) {
    && |left.outputs| == |right.outputs|
    && (forall i :: 0 <= i < |left.outputs| ==> left.outputs[i] in values && values[left.outputs[i]] == right.outputs[i])
    && (forall a, b :: a in values && b in values && values[a] == values[b] ==> a == b)
    && (forall a, b :: a in nodes && b in nodes && nodes[a] == nodes[b] ==> a == b)
    && (forall v :: v in values ==> RenamedValue(left, right, v, values[v], nodes))
    && (forall n :: n in nodes ==> RenamedNode(left, right, n, nodes[n], values))
  }

  /** Both have equal initial tensors, else both are the same input, else both are the same output
      of nodes renamed to each other. */
  ghost predicate RenamedValue<T>(left: GraphInfo<T>, right: GraphInfo<T>, v: ValueId, w: ValueId, nodes: map<NodeId, NodeId>) {
    if v in left.initializer || w in right.initializer then
      v in left.initializer && w in right.initializer && left.initializer[v] == right.initializer[w]
    else if v in left.inputs || w in right.inputs then
      exists p: nat :: IsFirst(left.inputs, v, p) && IsFirst(right.inputs, w, p)
    else
      && v in left.defined && w in right.defined && left.defined[v].1 == right.defined[w].1
      && left.defined[v].0 in nodes && nodes[left.defined[v].0] == right.defined[w].0
  }

  /** The same operator on the same slots: missing on both sides, or renamed to each other. */
  ghost predicate RenamedNode<T>(left: GraphInfo<T>, right: GraphInfo<T>, n: NodeId, n': NodeId, values: map<ValueId, ValueId>) {
    && n < |left.nodes| && n' < |right.nodes| && left.nodes[n].op == right.nodes[n'].op
    && |left.nodes[n].inputs| == |right.nodes[n'].inputs|
    && forall i :: 0 <= i < |left.nodes[n].inputs| ==>
         match (left.nodes[n].inputs[i], right.nodes[n'].inputs[i])
         case (None, None) => true
         case (Some(v), Some(w)) => v in values && values[v] == w
         case (_, _) => false
  }

  lemma SameValueRule<T>(left: GraphInfo<T>, right: GraphInfo<T>, v: ValueId, w: ValueId, nodes: map<NodeId, NodeId>)
    ensures RenamedValue(left, right, v, w, nodes) <==> ValuesPaired(left, right, nodes, v, w)
  {
    var p, q := Position(left.inputs, v), Position(right.inputs, w);
    if v in left.inputs && p == q {
      assert left.inputs[p.value] == v && right.inputs[p.value] == w;
    }
    forall k: nat ensures IsFirst(left.inputs, v, k) <==> p == Some(k) {
      FirstPosition(left.inputs, v, k);
    }
    forall k: nat ensures IsFirst(right.inputs, w, k) <==> q == Some(k) {
      FirstPosition(right.inputs, w, k);
    }
  }

  ghost predicate IsFirst(vs: seq<ValueId>, v: ValueId, k: nat) {
    k < |vs| && vs[k] == v && v !in vs[..k]
  }

  lemma {:induction false} FirstPosition(vs: seq<ValueId>, v: ValueId, k: nat)
    ensures IsFirst(vs, v, k) <==> Position(vs, v) == Some(k)
  {
    if vs != [] && vs[0] != v && 0 < k {
      FirstPosition(vs[1..], v, k - 1);
      if k < |vs| {
        assert vs[..k] == [vs[0]] + vs[1..][..k - 1];
      }
    }
  }

  lemma SameNodeRule<T>(left: GraphInfo<T>, right: GraphInfo<T>, n: NodeId, n': NodeId, values: map<ValueId, ValueId>)
    ensures RenamedNode(left, right, n, n', values) <==> NodesPaired(left, right, values, n, n')
  {
    if n < |left.nodes| && n' < |right.nodes| && |left.nodes[n].inputs| == |right.nodes[n'].inputs| {
      var ls, rs := left.nodes[n].inputs, right.nodes[n'].inputs;
      forall i | 0 <= i < |ls|
        ensures SlotPaired(ls[i], rs[i], values) <==>
                  match (ls[i], rs[i])
                  case (None, None) => true
                  case (Some(v), Some(w)) => v in values && values[v] == w
                  case (_, _) => false
      {
      }
    }
  }

  lemma RenamesIsIso<T>(left: GraphInfo<T>, right: GraphInfo<T>, iso: Iso)
    ensures Renames(left, right, iso.values, iso.nodes) <==> PairsOutputs(left, right, iso)
  {
    SameRules(left, right, iso);
    hide RenamedValue, ValuesPaired, RenamedNode, NodesPaired;
  }

  lemma SameRules<T>(left: GraphInfo<T>, right: GraphInfo<T>, iso: Iso)
    ensures forall v :: v in iso.values ==>
              (RenamedValue(left, right, v, iso.values[v], iso.nodes) <==> ValuesPaired(left, right, iso.nodes, v, iso.values[v]))
    ensures forall n :: n in iso.nodes ==>
              (RenamedNode(left, right, n, iso.nodes[n], iso.values) <==> NodesPaired(left, right, iso.values, n, iso.nodes[n]))
  {
    hide RenamedValue, ValuesPaired, RenamedNode, NodesPaired;
    forall v | v in iso.values
      ensures RenamedValue(left, right, v, iso.values[v], iso.nodes) <==> ValuesPaired(left, right, iso.nodes, v, iso.values[v])
    {
      SameValueRule(left, right, v, iso.values[v], iso.nodes);
    }
    forall n | n in iso.nodes
      ensures RenamedNode(left, right, n, iso.nodes[n], iso.values) <==> NodesPaired(left, right, iso.values, n, iso.nodes[n])
    {
      SameNodeRule(left, right, n, iso.nodes[n], iso.values);
    }
  }

  /** Accepted graphs are renamings of each other with the same declared types, and the other way
      round. */
  lemma AcceptedAreRenamed<T>(left: GraphInfo<T>, right: GraphInfo<T>)
    ensures SameInterface(left, right) <==> SameDeclared(left, right)
    ensures Isomorphic(left, right) <==> exists values: map<ValueId, ValueId>, nodes: map<NodeId, NodeId> :: Renames(left, right, values, nodes)
  {
    hide PairsOutputs, Renames;
    if Isomorphic(left, right) {
      var iso := IsoOf(left, right);
      RenamesIsIso(left, right, iso);
    }
    if values: map<ValueId, ValueId>, nodes: map<NodeId, NodeId> :| Renames(left, right, values, nodes) {
      RenamesIsIso(left, right, Iso(values, nodes));
    }
  }

  /** The comparison accepts exactly the graphs with the same interface that an isomorphism
      relates. */
  method Check<T(==)>(left: GraphInfo<T>, right: GraphInfo<T>) returns (ok: bool)
    requires left.Closed() && right.Closed() && left.Acyclic()
    ensures ok <==> SameInterface(left, right) && Isomorphic(left, right)
    ensures ok <==> SameDeclared(left, right) && exists values: map<ValueId, ValueId>, nodes: map<NodeId, NodeId> :: Renames(left, right, values, nodes)
  {
    AcceptedAreRenamed(left, right);
    if |left.inputs| != |right.inputs| || |left.outputs| != |right.outputs| {
      return false;
    }
    if !SameTypes(left, right, left.inputs, right.inputs) || !SameTypes(left, right, left.outputs, right.outputs) {
      return false;
    }
    hide SameDeclared, Renames;
    ghost var rank :| left.Ranked(rank);
    ghost var iso := if Isomorphic(left, right) then IsoOf(left, right) else Iso(map[], map[]);
    var comparison := new Comparison(left, right);
    ok := comparison.CompOutputs(rank, iso);
  }

  ghost function IsoOf<T>(left: GraphInfo<T>, right: GraphInfo<T>): (iso: Iso)
    requires Isomorphic(left, right)
    ensures PairsOutputs(left, right, iso)
  {
    var iso :| PairsOutputs(left, right, iso);
    iso
  }

  // ----- what acceptance means -----

  /** A meaning for every operator: its j-th result from its arguments. */
  type Semantics<!T> = (Operator, seq<Option<T>>, nat) -> T

  /** The value v gets when the graph runs on the given arguments. */
  ghost function Value<T>(g: GraphInfo<T>, m: Semantics<T>, args: seq<T>, rank: ValueId -> nat, v: ValueId): T
    requires g.Closed() && g.Ranked(rank) && |args| == |g.inputs| && g.Known(v)
    decreases rank(v), 1
  {
    if v in g.initializer then g.initializer[v]
    else if v in g.inputs then args[Position(g.inputs, v).value]
    else m(g.nodes[g.defined[v].0].op, Arguments(g, m, args, rank, v), g.defined[v].1)
  }

  ghost function Arguments<T>(g: GraphInfo<T>, m: Semantics<T>, args: seq<T>, rank: ValueId -> nat,
                      v: ValueId): (r: seq<Option<T>>)
    requires g.Closed() && g.Ranked(rank) && |args| == |g.inputs| && v in g.defined
    ensures |r| == |g.nodes[g.defined[v].0].inputs|
    decreases rank(v), 0
  {
    var slots := g.nodes[g.defined[v].0].inputs;
    seq(|slots|, i requires 0 <= i < |slots| =>
      assert g.KnownAt(g.defined[v].0, i) && g.Lower(rank, v, i);
      if slots[i].Some? then Some(Value(g, m, args, rank, slots[i].value)) else None)
  }

  /** Values an isomorphism pairs are equal, whatever the operators mean. */
  lemma {:induction false} PairedValuesAreEqual<T>(left: GraphInfo<T>, right: GraphInfo<T>, iso: Iso,
                      m: Semantics<T>, args: seq<T>,
                                                   rankL: ValueId -> nat, rankR: ValueId -> nat, v: ValueId, v': ValueId)
    requires left.Closed() && right.Closed() && left.Ranked(rankL) && right.Ranked(rankR)
    requires |args| == |left.inputs| == |right.inputs| && left.Known(v) && right.Known(v')
    requires iso.Between(left, right) && iso.Pairs(v, v')
    ensures Value(left, m, args, rankL, v) == Value(right, m, args, rankR, v')
    decreases rankL(v)
  {
    assert ValuesPaired(left, right, iso.nodes, v, v');
    if v !in left.initializer && v !in left.inputs {
      var n, n' := left.defined[v].0, right.defined[v'].0;
      assert NodesPaired(left, right, iso.values, n, n');
      var ls, rs := left.nodes[n].inputs, right.nodes[n'].inputs;
      forall i: nat | i < |ls|
        ensures Arguments(left, m, args, rankL, v)[i] == Arguments(right, m, args, rankR, v')[i]
      {
        assert left.KnownAt(n, i) && left.Lower(rankL, v, i) && right.KnownAt(n', i);
        SlotOf(left, right, iso, n, n', i);
        if ls[i].Some? {
          PairedValuesAreEqual(left, right, iso, m, args, rankL, rankR, ls[i].value, rs[i].value);
        }
      }
      assert Arguments(left, m, args, rankL, v) == Arguments(right, m, args, rankR, v');
    }
  }

  /** Accepted graphs compute the same outputs for every meaning of the operators and every
      input. */
  lemma AcceptedGraphsAgree<T>(left: GraphInfo<T>, right: GraphInfo<T>, m: Semantics<T>, args: seq<T>,
                               rankL: ValueId -> nat, rankR: ValueId -> nat, i: nat)
    requires left.Closed() && right.Closed() && left.Ranked(rankL) && right.Ranked(rankR)
    requires |args| == |left.inputs| == |right.inputs| && Isomorphic(left, right) && i < |left.outputs|
    ensures |left.outputs| == |right.outputs|
    ensures Value(left, m, args, rankL, left.outputs[i]) == Value(right, m, args, rankR, right.outputs[i])
  {
    var iso := IsoOf(left, right);
    PairedValuesAreEqual(left, right, iso, m, args, rankL, rankR, left.outputs[i], right.outputs[i]);
  }

  /** Every graph is accepted against itself. */
  lemma AcceptsItself<T>(g: GraphInfo<T>)
    requires g.Closed()
    ensures SameInterface(g, g) && Isomorphic(g, g)
  {
    var known := g.initializer.Keys + (set v | v in g.inputs) + g.defined.Keys;
    var defining := set v | v in g.defined :: g.defined[v].0;
    var iso := Iso(map v | v in known :: v, map n: NodeId | n in defining :: n);
    forall n | n in iso.nodes ensures NodesPaired(g, g, iso.values, n, n) {
      var v :| v in g.defined && g.defined[v].0 == n;
      forall i: nat | i < |g.nodes[n].inputs| ensures SlotPaired(g.nodes[n].inputs[i], g.nodes[n].inputs[i], iso.values) {
        assert g.KnownAt(g.defined[v].0, i);
      }
    }
    assert PairsOutputs(g, g, iso);
  }

  // ----- what the comparison reads of a graph -----

  ghost predicate DefinedBefore(g: Graph, defined: map<ValueId, (NodeId, nat)>, id: NodeId, k: nat) {
    && (forall v: ValueId :: v in defined ==> DefinedAt(g, defined[v], v))
    && (forall n: NodeId, i: nat :: g.Computes(n) && i < |g.nodes[n].outputs| && (n < id || (n == id && i < k)) ==> g.nodes[n].outputs[i] in defined)
  }

  predicate DefinedAt(g: Graph, at: (NodeId, nat), v: ValueId) {
    g.Computes(at.0) && at.1 < |g.nodes[at.0].outputs| && g.nodes[at.0].outputs[at.1] == v
  }

  /** Every value a marker defines is a graph input. */
  ghost predicate MarkersAreInputs(g: Graph, inputs: seq<ValueId>) {
    forall n: NodeId, v: ValueId :: g.Defines(n, v) && g.nodes[n].IsDummy() ==> v in inputs
  }

  /** The definitions of a graph's computing nodes; a well-formed graph without session states
      can be compared. */
  method InfoOf<T>(g: Graph, inputs: seq<ValueId>, outputs: seq<ValueId>, initializer: map<ValueId, T>,
                   types: map<ValueId, string>)
    returns (info: GraphInfo<T>)
    requires g.WellFormed() && initializer.Keys == g.initializers && MarkersAreInputs(g, inputs)
    requires forall i :: 0 <= i < |outputs| ==> outputs[i] in initializer || exists d: NodeId :: g.Defines(d, outputs[i])
    ensures info.nodes == g.nodes && info.inputs == inputs && info.outputs == outputs
    ensures info.initializer == initializer && info.types == types
    ensures forall v: ValueId :: v in info.defined ==> DefinedAt(g, info.defined[v], v)
    ensures forall n: NodeId, i: nat :: g.Computes(n) && i < |g.nodes[n].outputs| ==>
              g.nodes[n].outputs[i] in info.defined && info.defined[g.nodes[n].outputs[i]] == (n, i)
    ensures info.Closed() && info.Acyclic()
  {
    var defined: map<ValueId, (NodeId, nat)> := map[];
    for id := 0 to |g.nodes|
      invariant DefinedBefore(g, defined, id, 0)
    {
      if !g.nodes[id].deleted && !g.nodes[id].IsDummy() {
        for k := 0 to |g.nodes[id].outputs|
          invariant DefinedBefore(g, defined, id, k)
        {
          defined := defined[g.nodes[id].outputs[k] := (id, k)];
        }
      }
    }
    info := GraphInfo(g.nodes, inputs, outputs, initializer, types, defined);
    InfoIsClosed(g, info);
    InfoIsAcyclic(g, info);
    forall n: NodeId, i: nat | g.Computes(n) && i < |g.nodes[n].outputs| ensures info.defined[g.nodes[n].outputs[i]] == (n, i) {
      var v := g.nodes[n].outputs[i];
      assert DefinedAt(g, info.defined[v], v);
      assert g.Defines(n, v) && g.Defines(info.defined[v].0, v);
    }
  }

  lemma DefinedIsKnown<T>(g: Graph, info: GraphInfo<T>, v: ValueId)
    requires DefinedBefore(g, info.defined, |g.nodes|, 0) && MarkersAreInputs(g, info.inputs)
    requires v in info.initializer || exists d: NodeId :: g.Defines(d, v)
    ensures info.Known(v)
  {
    if v !in info.initializer {
      var d: NodeId :| g.Defines(d, v);
      if !g.nodes[d].IsDummy() {
        var i: nat :| i < |g.nodes[d].outputs| && g.nodes[d].outputs[i] == v;
        assert g.Computes(d);
      }
    }
  }

  lemma InfoIsClosed<T>(g: Graph, info: GraphInfo<T>)
    requires g.Closed() && info.nodes == g.nodes && info.initializer.Keys == g.initializers
    requires DefinedBefore(g, info.defined, |g.nodes|, 0) && MarkersAreInputs(g, info.inputs)
    requires forall i :: 0 <= i < |info.outputs| ==> info.outputs[i] in info.initializer || exists d: NodeId :: g.Defines(d, info.outputs[i])
    ensures info.Closed()
  {
    forall v: ValueId | v in info.defined ensures info.defined[v].0 < |info.nodes| {
      assert DefinedAt(g, info.defined[v], v);
    }
    forall v: ValueId, i: nat | v in info.defined && i < |info.nodes[info.defined[v].0].inputs|
      ensures info.KnownAt(info.defined[v].0, i)
    {
      assert DefinedAt(g, info.defined[v], v);
      var input := g.nodes[info.defined[v].0].inputs[i];
      if input.Some? {
        assert g.Uses(info.defined[v].0, input.value);
        DefinedIsKnown(g, info, input.value);
      }
    }
    forall i | 0 <= i < |info.outputs| ensures info.Known(info.outputs[i]) {
      DefinedIsKnown(g, info, info.outputs[i]);
    }
  }

  /** A value ranks above everything its defining node reads. */
  lemma InfoIsAcyclic<T>(g: Graph, info: GraphInfo<T>)
    requires g.Acyclic() && info.nodes == g.nodes && info.Closed()
    requires DefinedBefore(g, info.defined, |g.nodes|, 0)
    ensures info.Acyclic()
  {
    var rank: seq<nat> :| g.Ranked(rank);
    var valueRank: ValueId -> nat := v => if v in info.defined && info.defined[v].0 < |rank| then rank[info.defined[v].0] + 1 else 0;
    forall v: ValueId, i: nat | v in info.defined && i < |info.nodes[info.defined[v].0].inputs|
      ensures info.Lower(valueRank, v, i)
    {
      var n := info.defined[v].0;
      assert DefinedAt(g, info.defined[v], v);
      var input := g.nodes[n].inputs[i];
      if input.Some? && input.value in info.defined {
        assert DefinedAt(g, info.defined[input.value], input.value);
        assert g.nodes[n].Reads(input.value) && input.value in g.nodes[info.defined[input.value].0].outputs;
        assert g.Edge(info.defined[input.value].0, n);
      }
    }
    assert info.Ranked(valueRank);
  }
}
