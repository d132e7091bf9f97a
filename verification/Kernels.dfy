/** Kernels, and the grouping of elementwise nodes into bundles. */
module Kernels {
  import opened Options
  import opened GraphModel
  import opened TopologicalOrder

  datatype Arg = Input(index: nat) | NthResult(index: nat)

  datatype KernelBody = OpaqueBody(op: Operator) | ElementWises(ops: seq<(Operator, seq<Arg>)>)

  datatype Kernel = Kernel(inputs: seq<Option<ValueId>>, outputs: seq<ValueId>, body: KernelBody)

  // ----- nodes numbered in topological order -----

  datatype OrderedNodes = OrderedNodes(ordered: seq<NodeId>, id2order: map<NodeId, nat>) {
    ghost predicate Valid() {
      && NoRepeats(ordered)
      && (forall n: NodeId :: n in id2order <==> n in ordered)
      && (forall i :: 0 <= i < |ordered| ==> ordered[i] in id2order && id2order[ordered[i]] == i)
    }
  }

  method Number(ids: seq<NodeId>) returns (r: OrderedNodes)
    requires NoRepeats(ids)
    ensures r.Valid() && r.ordered == ids
  {
    var id2order: map<NodeId, nat> := map[];
    for i := 0 to |ids|
      invariant forall n: NodeId :: n in id2order <==> n in ids[..i]
      invariant forall j :: 0 <= j < i ==> ids[j] in id2order && id2order[ids[j]] == j
    {
      id2order := id2order[ids[i] := i];
    }
    assert ids[..|ids|] == ids;
    r := OrderedNodes(ids, id2order);
  }

  /** Candidates for bundling: elementwise nodes with one output. */
  predicate Bundles(g: Graph, n: NodeId) {
    g.Computes(n) && g.nodes[n].op.Elementwise? && |g.nodes[n].outputs| == 1
  }

  function Candidates(g: Graph, order: seq<NodeId>): (r: seq<NodeId>)
    ensures forall n: NodeId :: n in r <==> n in order && Bundles(g, n)
    ensures forall n: NodeId :: n in r <==> n in order && g.Computes(n) && g.nodes[n].op.Elementwise? && |g.nodes[n].outputs| == 1
  {
    if order == [] then []
    else
      var rest := Candidates(g, order[1..]);
      assert order == [order[0]] + order[1..];
      if Bundles(g, order[0]) then [order[0]] + rest else rest
  }

  lemma {:induction false} CandidatesInOrder(g: Graph, order: seq<NodeId>, i: nat, j: nat)
    requires NoRepeats(order) && i < j < |Candidates(g, order)|
    ensures Before(order, Candidates(g, order)[i], Candidates(g, order)[j])
    decreases |order|
  {
    var rest, d := Candidates(g, order[1..]), if Bundles(g, order[0]) then 1 else 0;
    assert Candidates(g, order)[j] == rest[j - d];
    hide Before, Bundles;
    if i < d {
      assert rest[j - d] in rest;
      FirstIsBefore(order, rest[j - d]);
    } else {
      CandidatesInOrder(g, order[1..], i - d, j - d);
      BeforeAlsoLater(order, rest[i - d], rest[j - d]);
    }
  }

  lemma CandidatesKeepOrder(g: Graph, order: seq<NodeId>)
    requires NoRepeats(order)
    ensures forall i, j :: 0 <= i < j < |Candidates(g, order)| ==>
              Before(order, Candidates(g, order)[i], Candidates(g, order)[j])
    ensures NoRepeats(Candidates(g, order))
  {
    hide Before, Candidates;
    var c := Candidates(g, order);
    forall i, j | 0 <= i < j < |c| ensures Before(order, c[i], c[j]) && c[i] != c[j] {
      CandidatesInOrder(g, order, i, j);
      BeforeIsOther(order, c[i], c[j]);
    }
  }

  lemma FirstIsBefore(order: seq<NodeId>, b: NodeId)
    requires order != [] && b in order[1..]
    ensures Before(order, order[0], b)
  {
    var k :| 0 <= k < |order[1..]| && order[1..][k] == b;
    assert order[k + 1] == b;
  }

  lemma BeforeAlsoLater(order: seq<NodeId>, a: NodeId, b: NodeId)
    requires order != [] && Before(order[1..], a, b)
    ensures Before(order, a, b)
  {
    var i, j :| 0 <= i < j < |order[1..]| && order[1..][i] == a && order[1..][j] == b;
    assert order[i + 1] == a && order[j + 1] == b;
  }

  lemma BeforeIsOther(order: seq<NodeId>, a: NodeId, b: NodeId)
    requires NoRepeats(order) && Before(order, a, b)
    ensures a != b
  {
  }

  /** Edges between candidates run forward, as in the order they come from. */
  lemma CandidateEdgesForward(g: Graph, order: seq<NodeId>, i: nat, j: nat)
    requires IsTopological(g, order) && i < |Candidates(g, order)| && j < |Candidates(g, order)|
    requires g.Edge(Candidates(g, order)[i], Candidates(g, order)[j])
    ensures i < j
  {
    var c := Candidates(g, order);
    CandidatesKeepOrder(g, order);
    assert c[i] in c && c[j] in c;
    var p :| 0 <= p < |order| && order[p] == c[i];
    var q :| 0 <= q < |order| && order[q] == c[j];
    assert g.Edge(order[p], order[q]);
  }

  // ----- which nodes share a kernel -----

  /** Class labels for the candidates: equal labels share a kernel. */
  type Classes = seq<nat>

  ghost predicate SameClass(c: seq<NodeId>, r: Classes, i: nat, n: NodeId)
    requires |r| == |c| && i < |c|
  {
    exists j :: 0 <= j < |c| && c[j] == n && r[j] == r[i]
  }

  /** The node is read, by candidate u among others, and all its readers are of u's class. */
  ghost predicate ReadersIn(g: Graph, c: seq<NodeId>, r: Classes, id: NodeId, u: nat)
    requires |r| == |c| && u < |c| && Bundles(g, id)
  {
    && g.Edge(id, c[u])
    && forall n: NodeId, s: nat :: g.ReadsAt(n, s, g.nodes[id].outputs[0]) ==> SameClass(c, r, u, n)
  }

  /** Candidate i shares the class that all its readers are of. */
  ghost predicate JoinsReaders(g: Graph, c: seq<NodeId>, r: Classes, i: nat)
    requires |r| == |c| && i < |c| && Bundles(g, c[i])
  {
    exists u :: 0 <= u < |c| && r[u] == r[i] && ReadersIn(g, c, r, c[i], u)
  }

  /** Candidates below k are alone in their class.  From k on, a candidate has a later mate
      exactly when its readers are all candidates of one class, and then it is of that class. */
  ghost predicate Grouped(g: Graph, c: seq<NodeId>, r: Classes, k: nat) {
    && |r| == |c|
    && (forall i :: 0 <= i < |c| ==> Bundles(g, c[i]))
    && (forall i, j :: 0 <= i < |c| && i < k && 0 <= j < |c| && r[i] == r[j] ==> i == j)
    && (forall i, j :: 0 <= i < j < |c| && r[i] == r[j] ==> JoinsReaders(g, c, r, i))
    && (forall i, u :: k <= i < |c| && 0 <= u < |c| && ReadersIn(g, c, r, c[i], u) ==> r[i] == r[u])
  }

  ghost predicate EdgesForward(g: Graph, c: seq<NodeId>) {
    forall i, j :: 0 <= i < |c| && 0 <= j < |c| && g.Edge(c[i], c[j]) ==> i < j
  }

  /** The labels after joining the classes of x and y. */
  ghost predicate ClassesJoined(r: Classes, r': Classes, x: nat, y: nat)
    requires x < |r| && y < |r|
  {
    && |r'| == |r| && r'[x] in {r[x], r[y]}
    && forall z :: 0 <= z < |r| ==> r'[z] == if r[z] in {r[x], r[y]} then r'[x] else r[z]
  }

  /** Among the other candidates, joining the lone candidate k with u's class changes nothing. */
  lemma JoinKeepsOthers(g: Graph, c: seq<NodeId>, r: Classes, r': Classes, k: nat, u: nat, z: nat, z': nat)
    requires Grouped(g, c, r, k + 1) && k < u < |c| && z < |c| && z' < |c|
    requires ClassesJoined(r, r', u, k) && z != k && z' != k
    ensures r'[z] == r'[z'] <==> r[z] == r[z']
  {
  }

  lemma SameClassKept(c: seq<NodeId>, r: Classes, r': Classes, u: nat, n: NodeId)
    requires |r| == |c| == |r'| && u < |c| && SameClass(c, r, u, n)
    requires forall z, z' :: 0 <= z < |c| && 0 <= z' < |c| && r[z] == r[z'] ==> r'[z] == r'[z']
    ensures SameClass(c, r', u, n)
  {
    var j :| 0 <= j < |c| && c[j] == n && r[j] == r[u];
    assert r'[j] == r'[u];
  }

  lemma ReadersKept(g: Graph, c: seq<NodeId>, r: Classes, r': Classes, id: NodeId, u: nat)
    requires |r| == |c| == |r'| && u < |c| && Bundles(g, id) && ReadersIn(g, c, r, id, u)
    requires forall z, z' :: 0 <= z < |c| && 0 <= z' < |c| && r[z] == r[z'] ==> r'[z] == r'[z']
    ensures ReadersIn(g, c, r', id, u)
  {
    forall n: NodeId, s: nat | g.ReadsAt(n, s, g.nodes[id].outputs[0]) ensures SameClass(c, r', u, n) {
      SameClassKept(c, r, r', u, n);
    }
  }

  /** Readers that share a class after the join shared one before it. */
  lemma ReadersBefore(g: Graph, c: seq<NodeId>, r: Classes, r': Classes, k: nat, u: nat, i: nat, w: nat)
    requires Grouped(g, c, r, k + 1) && k < u < |c| && NoRepeats(c) && EdgesForward(g, c) && ClassesJoined(r, r', u, k)
    requires k <= i < |c| && w < |c| && ReadersIn(g, c, r', c[i], w)
    ensures ReadersIn(g, c, r, c[i], w)
  {
    var v := g.nodes[c[i]].outputs[0];
    forall n: NodeId, s: nat | g.ReadsAt(n, s, v) ensures SameClass(c, r, w, n) {
      assert SameClass(c, r', w, n);
      var j :| 0 <= j < |c| && c[j] == n && r'[j] == r'[w];
      assert v in g.nodes[c[i]].outputs && g.nodes[c[j]].Reads(v);
      assert g.Edge(c[i], c[j]) && g.Edge(c[i], c[w]);
      JoinKeepsOthers(g, c, r, r', k, u, j, w);
    }
  }

  /** Joining candidate k with the one class that holds all its readers. */
  lemma JoinKeepsGrouped(g: Graph, c: seq<NodeId>, r: Classes, r': Classes, k: nat, u: nat)
    requires Grouped(g, c, r, k + 1) && k < u < |c| && NoRepeats(c) && EdgesForward(g, c)
    requires ClassesJoined(r, r', u, k) && ReadersIn(g, c, r, c[k], u)
    ensures Grouped(g, c, r', k)
  {
    hide ReadersIn;
    forall i, j | 0 <= i < j < |c| && r'[i] == r'[j] ensures JoinsReaders(g, c, r', i) {
      if i == k {
        ReadersKept(g, c, r, r', c[k], u);
        assert r'[u] == r'[i];
      } else {
        assert r[i] == r[j];
        assert JoinsReaders(g, c, r, i);
        var w :| 0 <= w < |c| && r[w] == r[i] && ReadersIn(g, c, r, c[i], w);
        ReadersKept(g, c, r, r', c[i], w);
        assert r'[w] == r'[i];
      }
    }
    forall i, w | k <= i < |c| && 0 <= w < |c| && ReadersIn(g, c, r', c[i], w) ensures r'[i] == r'[w] {
      ReadersBefore(g, c, r, r', k, u, i, w);
      if i == k { OneReaderClass(g, c, r, c[k], u, w); }
    }
  }

  /** All readers are of one class, so it does not matter which reader names it. */
  lemma OneReaderClass(g: Graph, c: seq<NodeId>, r: Classes, id: NodeId, u: nat, w: nat)
    requires |r| == |c| && u < |c| && w < |c| && Bundles(g, id) && NoRepeats(c)
    requires ReadersIn(g, c, r, id, u) && ReadersIn(g, c, r, id, w)
    ensures r[u] == r[w]
  {
    var v: ValueId :| v in g.nodes[id].outputs && g.nodes[c[w]].Reads(v);
    assert v == g.nodes[id].outputs[0];
    var s :| 0 <= s < |g.nodes[c[w]].inputs| && g.nodes[c[w]].inputs[s] == Some(v);
    assert g.ReadsAt(c[w], s, v);
    assert SameClass(c, r, u, c[w]);
    var j :| 0 <= j < |c| && c[j] == c[w] && r[j] == r[u];
  }

  /** Leaving candidate k alone, when its readers are not of one class. */
  lemma AloneKeepsGrouped(g: Graph, c: seq<NodeId>, r: Classes, k: nat)
    requires Grouped(g, c, r, k + 1) && k < |c|
    requires forall u :: 0 <= u < |c| ==> !ReadersIn(g, c, r, c[k], u)
    ensures Grouped(g, c, r, k)
  {
  }

  /** All live nodes that read v are candidates of class x. */
  ghost predicate ReadOnlyBy(g: Graph, c: seq<NodeId>, r: Classes, v: ValueId, x: nat)
    requires |r| == |c|
  {
    forall n: NodeId :: n < |g.nodes| && !g.nodes[n].deleted && Some(v) in g.nodes[n].inputs ==>
      exists j :: 0 <= j < |c| && c[j] == n && r[j] == x
  }

  /** Who is fused with whom, said of the readers alone.  A candidate with a later mate is read
      by a mate, and only by mates.  And when only candidates of one class read it, w among them,
      it is of that class. */
  lemma MatesAreReaders(g: Graph, c: seq<NodeId>, r: Classes, i: nat)
    requires Grouped(g, c, r, 0) && NoRepeats(c) && i < |c|
    ensures |g.nodes[c[i]].outputs| == 1
    ensures forall k :: i < k < |c| && r[k] == r[i] ==>
              && ReadOnlyBy(g, c, r, g.nodes[c[i]].outputs[0], r[i])
              && exists u :: 0 <= u < |c| && r[u] == r[i] && Some(g.nodes[c[i]].outputs[0]) in g.nodes[c[u]].inputs
    ensures forall w ::
              (0 <= w < |c| && Some(g.nodes[c[i]].outputs[0]) in g.nodes[c[w]].inputs
               && ReadOnlyBy(g, c, r, g.nodes[c[i]].outputs[0], r[w])) ==> r[i] == r[w]
  {
    var v := g.nodes[c[i]].outputs[0];
    if k :| i < k < |c| && r[k] == r[i] {
      assert JoinsReaders(g, c, r, i);
      var u :| 0 <= u < |c| && r[u] == r[i] && ReadersIn(g, c, r, c[i], u);
      ReadersRead(g, c, r, c[i], u);
    }
    forall w | 0 <= w < |c| && Some(v) in g.nodes[c[w]].inputs && ReadOnlyBy(g, c, r, v, r[w]) ensures r[i] == r[w] {
      ReadOnlyIsIn(g, c, r, c[i], w);
    }
  }

  lemma ReadersRead(g: Graph, c: seq<NodeId>, r: Classes, id: NodeId, u: nat)
    requires |r| == |c| && u < |c| && Bundles(g, id) && ReadersIn(g, c, r, id, u)
    ensures ReadOnlyBy(g, c, r, g.nodes[id].outputs[0], r[u]) && Some(g.nodes[id].outputs[0]) in g.nodes[c[u]].inputs
  {
    var v := g.nodes[id].outputs[0];
    forall n: NodeId | g.Live(n) && Some(v) in g.nodes[n].inputs ensures SameClass(c, r, u, n) {
      var s :| 0 <= s < |g.nodes[n].inputs| && g.nodes[n].inputs[s] == Some(v);
      assert g.ReadsAt(n, s, v);
    }
  }

  lemma ReadOnlyIsIn(g: Graph, c: seq<NodeId>, r: Classes, id: NodeId, w: nat)
    requires |r| == |c| && w < |c| && Bundles(g, id) && g.Live(c[w])
    requires Some(g.nodes[id].outputs[0]) in g.nodes[c[w]].inputs && ReadOnlyBy(g, c, r, g.nodes[id].outputs[0], r[w])
    ensures ReadersIn(g, c, r, id, w)
  {
    var v := g.nodes[id].outputs[0];
    assert v in g.nodes[id].outputs && g.nodes[c[w]].Reads(v);
    forall n: NodeId, s: nat | g.ReadsAt(n, s, v) ensures SameClass(c, r, w, n) {
      assert Some(v) in g.nodes[n].inputs;
    }
  }

  // ----- what the emitted kernels are -----

  /** The inputs that are given, in order. */
  function Present(inputs: seq<Option<ValueId>>): seq<ValueId> {
    if inputs == [] then []
    else (if inputs[0].Some? then [inputs[0].value] else []) + Present(inputs[1..])
  }

  lemma {:induction false} PresentIsRead(inputs: seq<Option<ValueId>>, i: nat)
    requires i < |Present(inputs)|
    ensures Some(Present(inputs)[i]) in inputs
    decreases |inputs|
  {
    var d := if inputs[0].Some? then 1 else 0;
    if d <= i {
      PresentIsRead(inputs[1..], i - d);
    }
  }

  /** The slots that are given, counted from `from`. */
  function PresentSlots(inputs: seq<Option<ValueId>>, from: nat): seq<Arg> {
    if inputs == [] then []
    else (if inputs[0].Some? then [Arg.Input(from)] else []) + PresentSlots(inputs[1..], from + 1)
  }

  /** A given input stands behind those of the slots before it and ahead of those after it, and
      a missing one leaves no gap. */
  lemma PresentInOrder(a: seq<Option<ValueId>>, x: Option<ValueId>, b: seq<Option<ValueId>>)
    ensures Present([]) == []
    ensures x == None ==> Present(a + [x] + b) == Present(a) + Present(b)
    ensures x.Some? ==> Present(a + [x] + b) == Present(a) + [x.value] + Present(b)
  {
    OnePresent(x);
    hide Present;
    JoinPresent(a + [x], b);
    JoinPresent(a, [x]);
  }

  lemma OnePresent(x: Option<ValueId>)
    ensures Present([]) == [] && Present([x]) == if x.Some? then [x.value] else []
  {
    assert [x][1..] == [];
  }

  lemma {:induction false} JoinPresent(a: seq<Option<ValueId>>, b: seq<Option<ValueId>>)
    ensures Present(a + b) == Present(a) + Present(b)
  {
    if a == [] {
      assert a + b == b;
    } else {
      assert (a + b)[0] == a[0] && (a + b)[1..] == a[1..] + b;
      JoinPresent(a[1..], b);
    }
  }

  /** The slots are listed as the inputs in them are: the i-th one named is where the i-th given
      input stands, and later ones are higher. */
  lemma {:induction false} SlotsOfPresent(inputs: seq<Option<ValueId>>, from: nat, i: nat)
    requires i < |Present(inputs)|
    ensures |PresentSlots(inputs, from)| == |Present(inputs)|
    ensures var arg := PresentSlots(inputs, from)[i];
            && arg.Input? && from <= arg.index < from + |inputs| && inputs[arg.index - from] == Some(Present(inputs)[i])
            && forall j :: i < j < |Present(inputs)| ==> PresentSlots(inputs, from)[j].Input? && arg.index < PresentSlots(inputs, from)[j].index
    decreases |inputs|
  {
    var d := if inputs[0].Some? then 1 else 0;
    var rest := PresentSlots(inputs[1..], from + 1);
    if i < d {
      AllLater(inputs[1..], from + 1);
    } else {
      SlotsOfPresent(inputs[1..], from + 1, i - d);
    }
    assert PresentSlots(inputs, from) == (if inputs[0].Some? then [Arg.Input(from)] else []) + rest;
  }

  lemma AllLater(inputs: seq<Option<ValueId>>, from: nat)
    ensures |PresentSlots(inputs, from)| == |Present(inputs)|
    ensures forall j :: 0 <= j < |PresentSlots(inputs, from)| ==>
              PresentSlots(inputs, from)[j].Input? && from <= PresentSlots(inputs, from)[j].index
  {
    if inputs != [] {
      AllLater(inputs[1..], from + 1);
    }
  }

  ghost predicate IsSingle(g: Graph, n: NodeId, k: Kernel)
    requires g.Live(n)
  {
    var node := g.nodes[n];
    && k.inputs == node.inputs && k.outputs == node.outputs
    && k.body == if node.op.Elementwise? then ElementWises([(node.op, PresentSlots(node.inputs, 0))]) else OpaqueBody(node.op)
  }

  ghost predicate AllBundle(g: Graph, members: seq<NodeId>) {
    forall i :: 0 <= i < |members| ==> Bundles(g, members[i])
  }

  function ResultOf(g: Graph, members: seq<NodeId>, k: nat): ValueId
    requires AllBundle(g, members) && k < |members|
  {
    g.nodes[members[k]].outputs[0]
  }

  /** Argument `arg` of member j stands for value v. */
  ghost predicate ArgReads(g: Graph, members: seq<NodeId>, j: nat, arg: Arg, v: ValueId, inputs: seq<Option<ValueId>>)
    requires AllBundle(g, members) && j < |members|
  {
    match arg
    case Input(x) => x < |inputs| && inputs[x] == Some(v)
    case NthResult(k) => k < j && ResultOf(g, members, k) == v
  }

  ghost predicate OpReads(g: Graph, members: seq<NodeId>, j: nat, op: (Operator, seq<Arg>), inputs: seq<Option<ValueId>>)
    requires AllBundle(g, members) && j < |members|
  {
    var present := Present(g.nodes[members[j]].inputs);
    && op.0 == g.nodes[members[j]].op && |op.1| == |present|
    && forall x :: 0 <= x < |present| ==> ArgReads(g, members, j, op.1[x], present[x], inputs)
  }

  /** Member j reads v, and no member before it defines v. */
  ghost predicate ExternalAt(g: Graph, members: seq<NodeId>, j: nat, v: ValueId)
    requires AllBundle(g, members) && j < |members|
  {
    g.nodes[members[j]].Reads(v) && forall k :: 0 <= k < j ==> ResultOf(g, members, k) != v
  }

  ghost predicate IsExternal(g: Graph, members: seq<NodeId>, input: Option<ValueId>)
    requires AllBundle(g, members)
  {
    input.Some? && exists j :: 0 <= j < |members| && ExternalAt(g, members, j, input.value)
  }

  /** The kernel that computes `members` in order and hands out the last one's result. */
  ghost predicate IsBundle(g: Graph, members: seq<NodeId>, k: Kernel) {
    && AllBundle(g, members) && members != []
    && k.outputs == g.nodes[members[|members| - 1]].outputs
    && (forall x :: 0 <= x < |k.inputs| ==> IsExternal(g, members, k.inputs[x]))
    && (forall x, y :: 0 <= x < y < |k.inputs| ==> k.inputs[x] != k.inputs[y])
    && k.body.ElementWises? && |k.body.ops| == |members|
    && forall j :: 0 <= j < |members| ==> OpReads(g, members, j, k.body.ops[j], k.inputs)
  }

  /** A later candidate shares n's class: n stays inside its bundle. */
  ghost predicate HasLater(c: seq<NodeId>, r: Classes, n: NodeId)
    requires |r| == |c|
  {
    exists i, j :: 0 <= i < j < |c| && c[i] == n && r[i] == r[j]
  }

  /** An earlier candidate shares n's class. */
  ghost predicate HasEarlier(c: seq<NodeId>, r: Classes, n: NodeId)
    requires |r| == |c|
  {
    exists i, j :: 0 <= j < i < |c| && c[i] == n && r[i] == r[j]
  }

  /** `group` lists, ascending, the class whose last candidate is n. */
  ghost predicate ClassEndingAt(c: seq<NodeId>, r: Classes, n: NodeId, group: seq<nat>)
    requires |r| == |c|
  {
    && group != [] && (forall x, y :: 0 <= x < y < |group| ==> group[x] < group[y])
    && (forall x :: 0 <= x < |group| ==> group[x] < |c|)
    && c[group[|group| - 1]] == n
    && forall z: nat :: z in group <==> z < |c| && r[z] == r[group[0]]
  }

  function Members(c: seq<NodeId>, group: seq<nat>): (m: seq<NodeId>)
    requires forall x :: 0 <= x < |group| ==> group[x] < |c|
    ensures |m| == |group| && forall x :: 0 <= x < |m| ==> m[x] == c[group[x]]
  {
    seq(|group|, x requires 0 <= x < |group| => c[group[x]])
  }

  ghost predicate KernelAt(g: Graph, c: seq<NodeId>, r: Classes, n: NodeId, k: Kernel)
    requires |r| == |c| && g.Live(n)
  {
    if HasEarlier(c, r, n)
    then exists group: seq<nat> :: ClassEndingAt(c, r, n, group) && IsBundle(g, Members(c, group), k)
    else IsSingle(g, n, k)
  }

  /** `kernels` are those of the first p nodes of the order: one for each node that no later
      node of its class stands for. */
  ghost predicate Emitted(g: Graph, c: seq<NodeId>, r: Classes, order: seq<NodeId>, p: nat, kernels: seq<Kernel>)
    requires |r| == |c| && p <= |order| && forall i :: 0 <= i < |order| ==> g.Live(order[i])
    decreases p
  {
    if p == 0 then kernels == []
    else if HasLater(c, r, order[p - 1]) then Emitted(g, c, r, order, p - 1, kernels)
    else
      && kernels != [] && KernelAt(g, c, r, order[p - 1], kernels[|kernels| - 1])
      && Emitted(g, c, r, order, p - 1, kernels[..|kernels| - 1])
  }

  /** There is one kernel for each node that no later one of its class stands for, in the order
      of the nodes. */
  lemma {:induction false} OneKernelEach(g: Graph, c: seq<NodeId>, r: Classes, order: seq<NodeId>, p: nat, kernels: seq<Kernel>)
    returns (at: seq<nat>)
    requires |r| == |c| && p <= |order| && forall i :: 0 <= i < |order| ==> g.Live(order[i])
    requires Emitted(g, c, r, order, p, kernels)
    ensures |at| == |kernels| && (forall x :: 0 <= x < |at| ==> at[x] < p && KernelAt(g, c, r, order[at[x]], kernels[x]))
    ensures forall x, y :: 0 <= x < y < |at| ==> at[x] < at[y]
    ensures forall q: nat :: q in at <==> q < p && !HasLater(c, r, order[q])
    decreases p
  {
    hide KernelAt, HasLater;
    if p == 0 {
      at := [];
    } else if HasLater(c, r, order[p - 1]) {
      at := OneKernelEach(g, c, r, order, p - 1, kernels);
    } else {
      var before := OneKernelEach(g, c, r, order, p - 1, kernels[..|kernels| - 1]);
      at := before + [p - 1];
    }
  }
}
