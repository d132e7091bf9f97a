/** The kernel builder: fuses elementwise nodes and emits the kernels in topological order. */
module KernelsBuilder {
  import opened Options
  import opened Partitions
  import opened DisjointSets
  import opened GraphModel
  import opened TopologicalOrder
  import opened Kernels

  /** The class labels a union-find holds. */
  ghost function Labelling(f: Forest): (r: Classes)
    requires f.Valid()
    ensures |r| == |f.parents| && forall i :: 0 <= i < |r| ==> r[i] == Root(f, i)
  {
    seq(|f.parents|, i requires 0 <= i < |f.parents| => Root(f, i))
  }

  datatype Builder = Builder(nodes: OrderedNodes, elementwise: OrderedNodes) {
    ghost predicate Valid(g: Graph) {
      && nodes.Valid() && elementwise.Valid()
      && IsTopological(g, nodes.ordered)
      && elementwise.ordered == Candidates(g, nodes.ordered)
    }
  }

  method NewBuilder(g: Graph) returns (b: Builder)
    requires g.WellFormed()
    ensures b.Valid(g)
  {
    var order := SimpleTopologicalOrder(g);
    CandidatesKeepOrder(g, order);
    var nodes := Number(order);
    var elementwise := Number(Candidates(g, order));
    b := Builder(nodes, elementwise);
  }

  /** The root of the one class that holds every reader of the node, if there is one. */
  method ReadersClass(b: Builder, id: NodeId, g: Graph, used: UseIndex, uf: UnionFind)
    returns (cand: Option<nat>, ghost u: nat)
    requires b.Valid(g) && IndexesUses(g, used) && uf.Valid() && id in b.elementwise.ordered
    requires |uf.parents| == |b.elementwise.ordered|
    modifies uf`parents
    ensures uf.Valid() && SameRoots(old(uf.State().forest), uf.State().forest)
    ensures cand.Some? ==> u < |uf.parents| && cand.value < |uf.parents| && cand.value == uf.RootOf(u) &&
                           ReadersIn(g, b.elementwise.ordered, Labelling(uf.State().forest), id, u)
    ensures cand.None? ==> forall w :: 0 <= w < |uf.parents| ==>
                             !ReadersIn(g, b.elementwise.ordered, Labelling(uf.State().forest), id, w)
  {
    hide Sets.Valid, Root, IndexesUses, Forest.Valid, IsTopological, NoRepeats, Labelling, ReadersIn, SameClass, CheckedSoFar;
    var c := b.elementwise.ordered;
    Shape(uf.State());
    var output := g.nodes[id].outputs[0];
    cand, u := None, 0;
    if output !in used {
      Unread(g, used, c, Labelling(uf.State().forest), id);
      return;
    }
    ghost var f := uf.State().forest;
    ghost var r := Labelling(f);
    var rest := used[output];
    NoneChecked(g, c, r, id, rest);
    while rest != {}
      invariant uf.Valid() && SameRoots(f, uf.State().forest)
      invariant rest <= used[output] && CheckedSoFar(g, c, r, id, used[output], rest, cand, u)
      decreases |rest|
    {
      var p :| p in rest;
      var ok;
      ok, cand, u := CheckNext(b, id, g, used, uf, f, rest, p, cand, u);
      if !ok {
        return None, 0;
      }
      rest := rest - {p};
    }
    UsedSomewhere(g, used, output);
    AllChecked(g, used, c, r, id, cand, u);
    SameLabels(f, uf.State().forest);
  }

  /** All readers but the rest are of reader u's class, whose name is `cand`. */
  ghost predicate CheckedSoFar(g: Graph, c: seq<NodeId>, r: Classes, id: NodeId, all: set<(NodeId, nat)>, rest: set<(NodeId, nat)>,
                      cand: Option<nat>, u: nat)
    requires |r| == |c|
  {
    && (cand.None? ==> rest == all)
    && (cand.Some? ==> u < |c| && cand.value == r[u] && g.Edge(id, c[u]) && forall p :: p in all - rest ==> SameClass(c, r, u, p.0))
  }

  lemma NoneChecked(g: Graph, c: seq<NodeId>, r: Classes, id: NodeId, all: set<(NodeId, nat)>)
    requires |r| == |c|
    ensures CheckedSoFar(g, c, r, id, all, all, None, 0)
  {
  }

  lemma OneMoreChecked(g: Graph, c: seq<NodeId>, r: Classes, id: NodeId, all: set<(NodeId, nat)>, rest: set<(NodeId, nat)>,
                      p: (NodeId, nat), cand: Option<nat>, u: nat, cand': nat, u': nat)
    requires |r| == |c| && p in rest && rest <= all && CheckedSoFar(g, c, r, id, all, rest, cand, u) && g.Edge(id, p.0)
    requires u' < |r| && cand' == r[u'] && SameClass(c, r, u', p.0) && if cand.Some? then u' == u else c[u'] == p.0
    ensures CheckedSoFar(g, c, r, id, all, rest - {p}, Some(cand'), u')
  {
    hide SameClass;
    forall q | q in all - (rest - {p}) ensures SameClass(c, r, u', q.0) {
      assert q == p || q in all - rest;
    }
  }

  lemma AllChecked(g: Graph, used: UseIndex, c: seq<NodeId>, r: Classes, id: NodeId, cand: Option<nat>, u: nat)
    requires IndexesUses(g, used) && |r| == |c| && Bundles(g, id) && g.nodes[id].outputs[0] in used
    requires used[g.nodes[id].outputs[0]] != {} && CheckedSoFar(g, c, r, id, used[g.nodes[id].outputs[0]], {}, cand, u)
    ensures cand.Some? && u < |c| && cand.value == r[u] && ReadersIn(g, c, r, id, u)
  {
    var all := used[g.nodes[id].outputs[0]];
    assert all - {} == all;
    ReadersCovered(g, used, c, r, id, u);
  }

  /** Checks one more reader; a reader of another class means that there is no one class. */
  method CheckNext(b: Builder, id: NodeId, g: Graph, used: UseIndex, uf: UnionFind, ghost f: Forest, ghost rest: set<(NodeId, nat)>,
                   p: (NodeId, nat), cand: Option<nat>, ghost u: nat)
    returns (ok: bool, cand': Option<nat>, ghost u': nat)
    requires b.Valid(g) && IndexesUses(g, used) && uf.Valid() && id in b.elementwise.ordered
    requires |uf.parents| == |b.elementwise.ordered| && f.Valid() && SameRoots(f, uf.State().forest)
    requires g.nodes[id].outputs[0] in used && p in rest && rest <= used[g.nodes[id].outputs[0]]
    requires CheckedSoFar(g, b.elementwise.ordered, Labelling(f), id, used[g.nodes[id].outputs[0]], rest, cand, u)
    modifies uf`parents
    ensures uf.Valid() && SameRoots(f, uf.State().forest)
    ensures ok ==> CheckedSoFar(g, b.elementwise.ordered, Labelling(f), id, used[g.nodes[id].outputs[0]], rest - {p}, cand', u')
    ensures !ok ==> forall w :: 0 <= w < |uf.parents| ==>
                      !ReadersIn(g, b.elementwise.ordered, Labelling(uf.State().forest), id, w)
  {
    hide Sets.Valid, Root, IndexesUses, Forest.Valid, IsTopological, NoRepeats, Labelling, ReadersIn, SameClass;
    ghost var c, r, all := b.elementwise.ordered, Labelling(f), used[g.nodes[id].outputs[0]];
    IndexedEdge(g, used, id, p);
    Shape(uf.State());
    SameLabels(f, uf.State().forest);
    ok, cand', u' := CheckReader(b.elementwise, p.0, cand, uf, r, u);
    SameLabels(f, uf.State().forest);
    if ok {
      OneMoreChecked(g, c, r, id, all, rest, p, cand, u, cand'.value, u');
    } else {
      NoOneClass(g, used, c, r, id, p, if cand.Some? then Some(u) else None);
    }
  }

  /** Compares one reader's class with the class found so far. */
  method CheckReader(elementwise: OrderedNodes, user: NodeId, cand: Option<nat>, uf: UnionFind, ghost r: Classes,
                     ghost u: nat)
    returns (ok: bool, cand': Option<nat>, ghost u': nat)
    requires elementwise.Valid() && uf.Valid() && |uf.parents| == |elementwise.ordered|
    requires r == Labelling(uf.State().forest)
    requires cand.Some? ==> u < |r| && cand.value == r[u]
    modifies uf`parents
    ensures uf.Valid() && SameRoots(old(uf.State().forest), uf.State().forest)
    ensures ok ==> cand'.Some? && u' < |r| && cand'.value == r[u'] && SameClass(elementwise.ordered, r, u', user)
    ensures ok ==> if cand.Some? then u' == u else elementwise.ordered[u'] == user
    ensures !ok ==> user !in elementwise.ordered || (cand.Some? && !SameClass(elementwise.ordered, r, u, user))
  {
    hide Sets.Valid, Root, Forest.Valid, NoRepeats, Labelling;
    Shape(uf.State());
    ok, cand', u' := true, cand, u;
    if user !in elementwise.id2order {
      return false, None, 0;
    }
    var userId := elementwise.id2order[user];
    var repr := uf.Representative(userId);
    if cand.None? {
      cand', u' := Some(repr), userId;
    } else if cand.value != repr {
      return false, None, 0;
    }
    assert elementwise.ordered[userId] == user && r[userId] == r[u'];
  }

  lemma IndexedEdge(g: Graph, used: UseIndex, id: NodeId, p: (NodeId, nat))
    requires IndexesUses(g, used) && Bundles(g, id) && g.nodes[id].outputs[0] in used && p in used[g.nodes[id].outputs[0]]
    ensures g.Edge(id, p.0)
  {
    var v := g.nodes[id].outputs[0];
    assert IndexedAt(used, p.0, p.1, v);
    assert g.ReadsAt(p.0, p.1, v);
    assert v in g.nodes[id].outputs && g.nodes[p.0].Reads(v);
  }

  lemma ReadersCovered(g: Graph, used: UseIndex, c: seq<NodeId>, r: Classes, id: NodeId, u: nat)
    requires IndexesUses(g, used) && |r| == |c| && u < |c| && Bundles(g, id) && g.Edge(id, c[u])
    requires g.nodes[id].outputs[0] in used
    requires forall p :: p in used[g.nodes[id].outputs[0]] ==> SameClass(c, r, u, p.0)
    ensures ReadersIn(g, c, r, id, u)
  {
    var output := g.nodes[id].outputs[0];
    forall n: NodeId, s: nat | g.ReadsAt(n, s, output) ensures SameClass(c, r, u, n) {
      assert IndexedAt(used, n, s, output);
    }
  }

  lemma SameLabels(f: Forest, f': Forest)
    requires SameRoots(f, f')
    ensures Labelling(f') == Labelling(f)
  {
  }

  lemma Unread(g: Graph, used: UseIndex, c: seq<NodeId>, r: Classes, id: NodeId)
    requires IndexesUses(g, used) && |r| == |c| && Bundles(g, id) && g.nodes[id].outputs[0] !in used
    ensures forall w :: 0 <= w < |c| ==> !ReadersIn(g, c, r, id, w)
  {
    var v := g.nodes[id].outputs[0];
    forall n: NodeId | g.Live(n) ensures !g.nodes[n].Reads(v) {
      forall s | 0 <= s < |g.nodes[n].inputs| ensures g.nodes[n].inputs[s] != Some(v) {
        assert !IndexedAt(used, n, s, v);
      }
    }
  }

  lemma UsedSomewhere(g: Graph, used: UseIndex, v: ValueId)
    requires IndexesUses(g, used) && v in used
    ensures used[v] != {}
  {
  }

  /** A reader outside the class of reader u: the readers are not of one class. */
  lemma NoOneClass(g: Graph, used: UseIndex, c: seq<NodeId>, r: Classes, id: NodeId, p: (NodeId, nat), u: Option<nat>)
    requires IndexesUses(g, used) && |r| == |c| && Bundles(g, id) && NoRepeats(c)
    requires g.nodes[id].outputs[0] in used && p in used[g.nodes[id].outputs[0]]
    requires p.0 !in c || (u.Some? && u.value < |c| && g.Edge(id, c[u.value]) && !SameClass(c, r, u.value, p.0))
    ensures forall w :: 0 <= w < |c| ==> !ReadersIn(g, c, r, id, w)
  {
    var v := g.nodes[id].outputs[0];
    assert IndexedAt(used, p.0, p.1, v);
    assert g.ReadsAt(p.0, p.1, v);
    if p.0 in c {
      var s := ReadPlace(g, id, c[u.value]);
      assert g.ReadsAt(c[u.value], s, v);
      forall w | 0 <= w < |c| ensures !SameClass(c, r, w, p.0) || !SameClass(c, r, w, c[u.value]) {
        if r[u.value] == r[w] { SameClassShared(c, r, u.value, w, p.0); }
      }
    }
  }

  lemma SameClassShared(c: seq<NodeId>, r: Classes, u: nat, w: nat, n: NodeId)
    requires |r| == |c| && u < |c| && w < |c| && r[u] == r[w]
    ensures SameClass(c, r, w, n) <==> SameClass(c, r, u, n)
  {
  }

  lemma ReadPlace(g: Graph, id: NodeId, n: NodeId) returns (s: nat)
    requires Bundles(g, id) && g.Edge(id, n)
    ensures g.ReadsAt(n, s, g.nodes[id].outputs[0])
  {
    var v: ValueId :| v in g.nodes[id].outputs && g.nodes[n].Reads(v);
    s :| 0 <= s < |g.nodes[n].inputs| && g.nodes[n].inputs[s] == Some(v);
  }

  lemma MergedLabels(f: Forest, f': Forest, u: nat, x: nat, y: nat)
    requires MergedRoots(f, f', x, y) && u < |f.parents| && Root(f, x) == Root(f, u)
    ensures ClassesJoined(Labelling(f), Labelling(f'), u, y)
  {
    hide Root, Forest.Valid;
    assert Root(f', u) == Root(f', x);
  }

  lemma ReaderIsLater(g: Graph, c: seq<NodeId>, r: Classes, k: nat, u: nat)
    requires |r| == |c| && k < |c| && u < |c| && Bundles(g, c[k]) && EdgesForward(g, c) && ReadersIn(g, c, r, c[k], u)
    ensures k < u
  {
  }

  lemma CandidatesForward(g: Graph, order: seq<NodeId>)
    requires IsTopological(g, order)
    ensures EdgesForward(g, Candidates(g, order))
  {
    var c := Candidates(g, order);
    forall i, j | 0 <= i < |c| && 0 <= j < |c| && g.Edge(c[i], c[j]) ensures i < j {
      CandidateEdgesForward(g, order, i, j);
    }
  }

  /** Merges the node with the class of all its readers, if they have one. */
  method TryFuse(b: Builder, id: NodeId, g: Graph, used: UseIndex, uf: UnionFind)
    requires b.Valid(g) && IndexesUses(g, used) && uf.Valid() && id in b.elementwise.ordered
    requires |uf.parents| == |b.elementwise.ordered|
    requires Grouped(g, b.elementwise.ordered, Labelling(uf.State().forest), b.elementwise.id2order[id] + 1)
    modifies uf
    ensures uf.Valid() && |uf.parents| == old(|uf.parents|)
    ensures Grouped(g, b.elementwise.ordered, Labelling(uf.State().forest), b.elementwise.id2order[id])
  {
    hide Sets.Valid, Root, Forest.Valid, IndexesUses, Grouped, IsTopological, NoRepeats, ReadersIn, MergedRoots, EdgesForward;
    var c := b.elementwise.ordered;
    var ord := b.elementwise.id2order[id];
    ghost var f0 := uf.State().forest;
    var cand; ghost var u;
    cand, u := ReadersClass(b, id, g, used, uf);
    ghost var f := uf.State().forest;
    SameLabels(f0, f);
    if cand.None? {
      AloneKeepsGrouped(g, c, Labelling(f), ord);
      return;
    }
    RootOfRoot(f, cand.value);
    CandidatesForward(g, b.nodes.ordered);
    ReaderIsLater(g, c, Labelling(f), ord, u);
    uf.Merge(cand.value, ord);
    Shape(uf.State());
    MergedLabels(f, uf.State().forest, u, cand.value, ord);
    JoinKeepsGrouped(g, c, Labelling(f), Labelling(uf.State().forest), ord, u);
  }

  // ----- the kernel of one group -----

  /** What the loop over a group's members keeps: the results so far and the inputs so far. */
  ghost predicate BundleState(g: Graph, members: seq<NodeId>, j: nat, inputs: seq<Option<ValueId>>,
                              input2idx: map<ValueId, nat>, intermediates: map<ValueId, nat>,
                              ops: seq<(Operator, seq<Arg>)>)
    requires j <= |members| && AllBundle(g, members)
  {
    && |intermediates| == j == |ops|
    && (forall v: ValueId :: v in input2idx ==> input2idx[v] < |inputs| && inputs[input2idx[v]] == Some(v))
    && (forall v: ValueId :: v in intermediates ==> intermediates[v] < j && ResultOf(g, members, intermediates[v]) == v)
    && (forall k :: 0 <= k < j ==> ResultOf(g, members, k) in intermediates)
    && (forall x :: 0 <= x < |inputs| ==> inputs[x].Some? && inputs[x].value in input2idx && input2idx[inputs[x].value] == x)
    && (forall x :: 0 <= x < |inputs| ==> IsExternal(g, members, inputs[x]))
    && (forall k :: 0 <= k < j ==> OpReads(g, members, k, ops[k], inputs))
  }

  /** The arguments of one bundled operator. */
  method BundleArgs(g: Graph, members: seq<NodeId>, j: nat, inputs: seq<Option<ValueId>>, input2idx: map<ValueId, nat>,
                    intermediates: map<ValueId, nat>, ghost ops: seq<(Operator, seq<Arg>)>)
    returns (args: seq<Arg>, inputs': seq<Option<ValueId>>, input2idx': map<ValueId, nat>)
    requires AllBundle(g, members) && j < |members|
    requires BundleState(g, members, j, inputs, input2idx, intermediates, ops)
    ensures BundleState(g, members, j, inputs', input2idx', intermediates, ops)
    ensures OpReads(g, members, j, (g.nodes[members[j]].op, args), inputs')
  {
    var present := Present(g.nodes[members[j]].inputs);
    args, inputs', input2idx' := [], inputs, input2idx;
    hide BundleState, ArgReads, Present, AllBundle;
    for i := 0 to |present|
      invariant BundleState(g, members, j, inputs', input2idx', intermediates, ops)
      invariant |args| == i && ArgsRead(g, members, j, args, present, inputs')
    {
      PresentIsRead(g.nodes[members[j]].inputs, i);
      ghost var before := inputs';
      var arg;
      arg, inputs', input2idx' := BundleArg(g, members, j, inputs', input2idx', intermediates, ops, present[i]);
      OneMoreArg(g, members, j, args, present, before, inputs', arg);
      args := args + [arg];
    }
  }

  /** The arguments so far refer to the values of the slots so far. */
  ghost predicate ArgsRead(g: Graph, members: seq<NodeId>, j: nat, args: seq<Arg>, present: seq<ValueId>, inputs: seq<Option<ValueId>>)
    requires AllBundle(g, members) && j < |members| && |args| <= |present|
  {
    forall x :: 0 <= x < |args| ==> ArgReads(g, members, j, args[x], present[x], inputs)
  }

  lemma OneMoreArg(g: Graph, members: seq<NodeId>, j: nat, args: seq<Arg>, present: seq<ValueId>, inputs: seq<Option<ValueId>>,
                   inputs': seq<Option<ValueId>>, arg: Arg)
    requires AllBundle(g, members) && j < |members| && |args| < |present| && ArgsRead(g, members, j, args, present, inputs)
    requires inputs <= inputs' && ArgReads(g, members, j, arg, present[|args|], inputs')
    ensures ArgsRead(g, members, j, args + [arg], present, inputs')
  {
  }

  /** The argument for one value: an earlier result, a known input, or a new input. */
  method BundleArg(g: Graph, members: seq<NodeId>, j: nat, inputs: seq<Option<ValueId>>, input2idx: map<ValueId, nat>,
                   intermediates: map<ValueId, nat>, ghost ops: seq<(Operator, seq<Arg>)>, input: ValueId)
    returns (arg: Arg, inputs': seq<Option<ValueId>>, input2idx': map<ValueId, nat>)
    requires AllBundle(g, members) && j < |members| && g.nodes[members[j]].Reads(input)
    requires BundleState(g, members, j, inputs, input2idx, intermediates, ops)
    ensures BundleState(g, members, j, inputs', input2idx', intermediates, ops)
    ensures inputs <= inputs' && ArgReads(g, members, j, arg, input, inputs')
  {
    KnownArgs(g, members, j, inputs, input2idx, intermediates, ops, input);
    hide BundleState, ArgReads;
    inputs', input2idx' := inputs, input2idx;
    if input in intermediates {
      arg := NthResult(intermediates[input]);
    } else if input in input2idx {
      arg := Arg.Input(input2idx[input]);
    } else {
      NewInput(g, members, j, inputs, input2idx, intermediates, ops, input);
      arg := Arg.Input(|inputs|);
      input2idx' := input2idx[input := |inputs|];
      inputs' := inputs + [Some(input)];
    }
  }

  /** A value that is known already has its argument. */
  lemma KnownArgs(g: Graph, members: seq<NodeId>, j: nat, inputs: seq<Option<ValueId>>, input2idx: map<ValueId, nat>,
                  intermediates: map<ValueId, nat>, ops: seq<(Operator, seq<Arg>)>, v: ValueId)
    requires AllBundle(g, members) && j < |members| && BundleState(g, members, j, inputs, input2idx, intermediates, ops)
    ensures v in intermediates ==> ArgReads(g, members, j, NthResult(intermediates[v]), v, inputs)
    ensures v in input2idx ==> ArgReads(g, members, j, Arg.Input(input2idx[v]), v, inputs)
    ensures ArgReads(g, members, j, Arg.Input(|inputs|), v, inputs + [Some(v)])
  {
  }

  lemma GrowInputs(g: Graph, members: seq<NodeId>, j: nat, args: seq<Arg>, present: seq<ValueId>,
                   inputs: seq<Option<ValueId>>, v: ValueId)
    requires AllBundle(g, members) && j < |members| && |args| <= |present|
    requires forall x :: 0 <= x < |args| ==> ArgReads(g, members, j, args[x], present[x], inputs)
    ensures forall x :: 0 <= x < |args| ==> ArgReads(g, members, j, args[x], present[x], inputs + [Some(v)])
  {
  }

  lemma NewInput(g: Graph, members: seq<NodeId>, j: nat, inputs: seq<Option<ValueId>>, input2idx: map<ValueId, nat>,
                 intermediates: map<ValueId, nat>, ops: seq<(Operator, seq<Arg>)>, v: ValueId)
    requires AllBundle(g, members) && j < |members| && BundleState(g, members, j, inputs, input2idx, intermediates, ops)
    requires v !in intermediates && v !in input2idx && g.nodes[members[j]].Reads(v)
    ensures BundleState(g, members, j, inputs + [Some(v)], input2idx[v := |inputs|], intermediates, ops)
  {
    var inputs' := inputs + [Some(v)];
    assert IsExternal(g, members, Some(v)) by {
      assert ExternalAt(g, members, j, v);
    }
    forall k | 0 <= k < j ensures OpReads(g, members, k, ops[k], inputs') {
      GrowInputs(g, members, k, ops[k].1, Present(g.nodes[members[k]].inputs), inputs, v);
    }
  }

  method BuildBundledOps(g: Graph, members: seq<NodeId>) returns (body: KernelBody, inputs: seq<Option<ValueId>>)
    requires g.SingleDefinition() && AllBundle(g, members) && NoRepeats(members) && members != []
    ensures IsBundle(g, members, Kernel(inputs, g.nodes[members[|members| - 1]].outputs, body))
  {
    inputs := [];
    var input2idx: map<ValueId, nat>, intermediates: map<ValueId, nat> := map[], map[];
    var ops: seq<(Operator, seq<Arg>)> := [];
    for j := 0 to |members|
      invariant BundleState(g, members, j, inputs, input2idx, intermediates, ops)
    {
      var node := g.nodes[members[j]];
      var args;
      args, inputs, input2idx := BundleArgs(g, members, j, inputs, input2idx, intermediates, ops);
      NextMember(g, members, j, inputs, input2idx, intermediates, ops, (node.op, args));
      intermediates := intermediates[node.outputs[0] := |intermediates|];
      ops := ops + [(node.op, args)];
    }
    body := ElementWises(ops);
  }

  lemma NextMember(g: Graph, members: seq<NodeId>, j: nat, inputs: seq<Option<ValueId>>, input2idx: map<ValueId, nat>,
                   intermediates: map<ValueId, nat>, ops: seq<(Operator, seq<Arg>)>, op: (Operator, seq<Arg>))
    requires g.SingleDefinition() && AllBundle(g, members) && NoRepeats(members) && j < |members|
    requires BundleState(g, members, j, inputs, input2idx, intermediates, ops) && OpReads(g, members, j, op, inputs)
    ensures BundleState(g, members, j + 1, inputs, input2idx,
                        intermediates[ResultOf(g, members, j) := |intermediates|], ops + [op])
  {
    NewIntermediate(g, members, j, inputs, input2idx, intermediates, ops);
    hide Graph.SingleDefinition, AllBundle, NoRepeats, OpReads, IsExternal, ResultOf;
    OneMoreOp(g, members, j, inputs, ops, op);
    assert |intermediates[ResultOf(g, members, j) := |intermediates|]| == j + 1;
  }

  lemma OneMoreOp(g: Graph, members: seq<NodeId>, j: nat, inputs: seq<Option<ValueId>>, ops: seq<(Operator, seq<Arg>)>,
                  op: (Operator, seq<Arg>))
    requires AllBundle(g, members) && j < |members| && |ops| == j && OpReads(g, members, j, op, inputs)
    requires forall k :: 0 <= k < j ==> OpReads(g, members, k, ops[k], inputs)
    ensures forall k :: 0 <= k < j + 1 ==> OpReads(g, members, k, (ops + [op])[k], inputs)
  {
    hide OpReads, AllBundle;
  }

  lemma NewIntermediate(g: Graph, members: seq<NodeId>, j: nat, inputs: seq<Option<ValueId>>, input2idx: map<ValueId,
                      nat>,
                        intermediates: map<ValueId, nat>, ops: seq<(Operator, seq<Arg>)>)
    requires g.SingleDefinition() && AllBundle(g, members) && NoRepeats(members) && j < |members|
    requires BundleState(g, members, j, inputs, input2idx, intermediates, ops)
    ensures ResultOf(g, members, j) !in intermediates
  {
    var v := ResultOf(g, members, j);
    if v in intermediates {
      var k := intermediates[v];
      assert g.Defines(members[k], v) && g.Defines(members[j], v);
      assert false;
    }
  }

  // ----- tags -----

  datatype KernelTag = Ignore | Single | ElementwiseLast(group: nat)

  /** Exactly the classes of two or more candidates, each listed once in ascending order. */
  ghost predicate BigGroups(c: seq<NodeId>, r: Classes, groups: seq<seq<nat>>)
    requires |r| == |c|
  {
    && (forall q :: 0 <= q < |groups| ==> 2 <= |groups[q]| && ListsLabels(c, r, groups[q]))
    && (forall i, j :: 0 <= i < j < |c| && r[i] == r[j] ==> InSome(groups, i) && InSome(groups, j))
    && (forall p, q :: 0 <= p < q < |groups| ==> groups[p][0] !in groups[q])
  }

  ghost predicate ListsLabels(c: seq<NodeId>, r: Classes, group: seq<nat>)
    requires |r| == |c|
  {
    && group != [] && (forall x, y :: 0 <= x < y < |group| ==> group[x] < group[y])
    && (forall x :: 0 <= x < |group| ==> group[x] < |c|)
    && forall z: nat :: z in group <==> z < |c| && r[z] == r[group[0]]
  }

  ghost predicate Holds(c: seq<NodeId>, groups: seq<seq<nat>>, q: nat, x: nat, n: NodeId) {
    q < |groups| && x < |groups[q]| && groups[q][x] < |c| && c[groups[q][x]] == n
  }

  /** The tag of node n once the first `bound` groups are marked. */
  ghost predicate TagIs(c: seq<NodeId>, groups: seq<seq<nat>>, bound: nat, n: NodeId, tag: KernelTag) {
    && (forall q: nat, x: nat :: q < bound && Holds(c, groups, q, x, n) ==>
          tag == if x == |groups[q]| - 1 then ElementwiseLast(q) else Ignore)
    && ((forall q: nat, x: nat :: q < bound ==> !Holds(c, groups, q, x, n)) ==> tag == Single)
  }

  method BigOnes(all: seq<seq<nat>>, ghost f: Forest, ghost c: seq<NodeId>) returns (groups: seq<seq<nat>>)
    requires f.Valid() && AreGroups(f, all) && |c| == |f.parents|
    ensures BigGroups(c, Labelling(f), groups)
  {
    hide Root, Forest.Valid, BigOnesOf;
    groups := [];
    NoBigOnes(all);
    for i := 0 to |all|
      invariant BigOnesOf(all, i, groups)
    {
      OneMoreBigOne(f, all, i, groups);
      if 1 < |all[i]| {
        groups := groups + [all[i]];
      }
    }
    AllBigOnes(all, groups);
    BigOnesLabelled(all, f, c, groups);
  }

  /** The groups of two or more among the first i. */
  ghost predicate BigOnesOf(all: seq<seq<nat>>, i: nat, groups: seq<seq<nat>>)
    requires i <= |all|
  {
    && (forall q :: 0 <= q < |groups| ==> 2 <= |groups[q]| && groups[q] in all[..i])
    && (forall p :: 0 <= p < i && 2 <= |all[p]| ==> all[p] in groups)
    && (forall p, q :: 0 <= p < q < |groups| ==> groups[p][0] !in groups[q])
  }

  lemma NoBigOnes(all: seq<seq<nat>>)
    ensures BigOnesOf(all, 0, [])
  {
  }

  lemma OneMoreBigOne(f: Forest, all: seq<seq<nat>>, i: nat, groups: seq<seq<nat>>)
    requires f.Valid() && AreGroups(f, all) && i < |all| && BigOnesOf(all, i, groups)
    ensures BigOnesOf(all, i + 1, if 1 < |all[i]| then groups + [all[i]] else groups)
  {
    hide Root, Forest.Valid;
    assert all[..i + 1] == all[..i] + [all[i]];
    if 1 < |all[i]| {
      forall q | 0 <= q < |groups| ensures groups[q][0] !in all[i] {
        var p :| 0 <= p < i && all[p] == groups[q];
      }
    }
  }

  lemma AllBigOnes(all: seq<seq<nat>>, groups: seq<seq<nat>>)
    requires BigOnesOf(all, |all|, groups)
    ensures forall q :: 0 <= q < |groups| ==> 2 <= |groups[q]| && groups[q] in all
    ensures forall p :: 0 <= p < |all| && 2 <= |all[p]| ==> all[p] in groups
    ensures forall p, q :: 0 <= p < q < |groups| ==> groups[p][0] !in groups[q]
  {
    assert all[..|all|] == all;
  }

  lemma BigOnesLabelled(all: seq<seq<nat>>, f: Forest, c: seq<NodeId>, groups: seq<seq<nat>>)
    requires f.Valid() && AreGroups(f, all) && |c| == |f.parents|
    requires forall q :: 0 <= q < |groups| ==> 2 <= |groups[q]| && groups[q] in all
    requires forall p :: 0 <= p < |all| && 2 <= |all[p]| ==> all[p] in groups
    requires forall p, q :: 0 <= p < q < |groups| ==> groups[p][0] !in groups[q]
    ensures BigGroups(c, Labelling(f), groups)
  {
    hide Root, Forest.Valid, ListsLabels, AreGroups, Labelling;
    var r := Labelling(f);
    forall q | 0 <= q < |groups| ensures ListsLabels(c, r, groups[q]) {
      var p := PlaceOf(all, groups[q]);
      GroupIsListed(all, f, c, p);
    }
    forall i, j | 0 <= i < j < |c| && r[i] == r[j] ensures InSome(groups, i) && InSome(groups, j) {
      PairIsGrouped(all, f, c, groups, i, j);
    }
  }

  lemma PlaceOf(groups: seq<seq<nat>>, group: seq<nat>) returns (p: nat)
    requires group in groups
    ensures p < |groups| && groups[p] == group
  {
    p :| 0 <= p < |groups| && groups[p] == group;
  }

  lemma GroupIsListed(all: seq<seq<nat>>, f: Forest, c: seq<NodeId>, p: nat)
    requires f.Valid() && AreGroups(f, all) && |c| == |f.parents| && p < |all|
    ensures ListsLabels(c, Labelling(f), all[p])
  {
    ListedLabels(f, all[p], c);
  }

  lemma GroupWith(groups: seq<seq<nat>>, z: nat) returns (p: nat)
    requires InSome(groups, z)
    ensures p < |groups| && z in groups[p]
  {
    p :| 0 <= p < |groups| && z in groups[p];
  }

  lemma InSomeAt(groups: seq<seq<nat>>, z: nat, group: seq<nat>)
    requires group in groups && z in group
    ensures InSome(groups, z)
  {
    var q := PlaceOf(groups, group);
  }

  /** Two candidates of one class are in a group of two or more. */
  lemma PairIsGrouped(all: seq<seq<nat>>, f: Forest, c: seq<NodeId>, groups: seq<seq<nat>>, i: nat, j: nat)
    requires f.Valid() && AreGroups(f, all) && |c| == |f.parents| && i < j < |c| && Labelling(f)[i] == Labelling(f)[j]
    requires forall p :: 0 <= p < |all| && 2 <= |all[p]| ==> all[p] in groups
    ensures InSome(groups, i) && InSome(groups, j)
  {
    assert InSome(all, i);
    var p := GroupWith(all, i);
    GroupIsListed(all, f, c, p);
    hide Root, Forest.Valid, Labelling, AreGroups;
    assert j in all[p];
    TwoMembers(all[p], i, j);
    InSomeAt(groups, i, all[p]);
    InSomeAt(groups, j, all[p]);
  }

  lemma TwoMembers(g: seq<nat>, i: nat, j: nat)
    requires i in g && j in g && i != j
    ensures 2 <= |g|
  {
    var x :| 0 <= x < |g| && g[x] == i;
    var y :| 0 <= y < |g| && g[y] == j;
  }

  lemma ListedLabels(f: Forest, g: seq<nat>, c: seq<NodeId>)
    requires f.Valid() && g != [] && g[0] < |f.parents| && |c| == |f.parents|
    requires ListsClass(f, g, Root(f, g[0]), |f.parents|)
    ensures ListsLabels(c, Labelling(f), g)
  {
    hide Root, Forest.Valid;
    forall x | 0 <= x < |g| ensures g[x] < |c| {
      assert g[x] in g;
    }
  }

  /** The first k members of group q are ignored, other nodes keep their tags. */
  ghost predicate Ignored(c: seq<NodeId>, order: seq<NodeId>, groups: seq<seq<nat>>, q: nat, tags: seq<KernelTag>,
                          tags': seq<KernelTag>, k: nat)
    requires |order| == |tags|
  {
    && |tags'| == |tags|
    && (forall p :: 0 <= p < |tags| && (forall x: nat :: !Holds(c, groups, q, x, order[p])) ==> tags'[p] == tags[p])
    && (forall p, x: nat :: 0 <= p < |tags| && x < k && Holds(c, groups, q, x, order[p]) ==> tags'[p] == Ignore)
  }

  lemma OneMoreIgnored(c: seq<NodeId>, order: seq<NodeId>, groups: seq<seq<nat>>, q: nat, tags: seq<KernelTag>,
                       tags': seq<KernelTag>, k: nat, at: nat)
    requires |order| == |tags| && NoRepeats(order) && at < |order| && Ignored(c, order, groups, q, tags, tags', k)
    requires Holds(c, groups, q, k, order[at])
    ensures Ignored(c, order, groups, q, tags, tags'[at := Ignore], k + 1)
  {
    forall p, x: nat | 0 <= p < |tags| && x < k + 1 && Holds(c, groups, q, x, order[p]) ensures tags'[at := Ignore][p] == Ignore {
      if x == k {
        assert order[p] == order[at];
      }
    }
  }

  lemma LastMarked(c: seq<NodeId>, order: seq<NodeId>, groups: seq<seq<nat>>, q: nat, tags: seq<KernelTag>, tags': seq<KernelTag>,
                   last: nat, x: nat, p: nat)
    requires |order| == |tags| && NoRepeats(order) && NoRepeats(c) && last < |order| && p < |order| && q < |groups| && groups[q] != []
    requires forall x, y :: 0 <= x < y < |groups[q]| ==> groups[q][x] < groups[q][y]
    requires Ignored(c, order, groups, q, tags, tags', |groups[q]|) && Holds(c, groups, q, |groups[q]| - 1, order[last])
    requires Holds(c, groups, q, x, order[p])
    ensures tags'[last := ElementwiseLast(q)][p] == if x == |groups[q]| - 1 then ElementwiseLast(q) else Ignore
  {
    if x == |groups[q]| - 1 {
      assert order[p] == order[last];
    } else {
      assert groups[q][x] < groups[q][|groups[q]| - 1];
      assert order[p] != order[last];
    }
  }

  /** Marks one group: all members ignored, then the last one as the place of the kernel. */
  method MarkGroup(b: Builder, ghost g: Graph, tags: seq<KernelTag>, groups: seq<seq<nat>>, q: nat)
    returns (tags': seq<KernelTag>)
    requires b.Valid(g) && |tags| == |b.nodes.ordered|
    requires q < |groups| && groups[q] != []
    requires forall x :: 0 <= x < |groups[q]| ==> groups[q][x] < |b.elementwise.ordered|
    requires forall x, y :: 0 <= x < y < |groups[q]| ==> groups[q][x] < groups[q][y]
    ensures |tags'| == |tags|
    ensures forall p :: 0 <= p < |tags| && (forall x: nat :: !Holds(b.elementwise.ordered, groups, q, x, b.nodes.ordered[p])) ==>
              tags'[p] == tags[p]
    ensures forall p, x: nat :: 0 <= p < |tags| && Holds(b.elementwise.ordered, groups, q, x, b.nodes.ordered[p]) ==>
              tags'[p] == if x == |groups[q]| - 1 then ElementwiseLast(q) else Ignore
  {
    ghost var c, order := b.elementwise.ordered, b.nodes.ordered;
    assert NoRepeats(order) && NoRepeats(c);
    hide IsTopological, Candidates, Holds, Ignored, NoRepeats;
    var group := groups[q];
    tags' := tags;
    NoneIgnored(c, order, groups, q, tags);
    for k := 0 to |group|
      invariant |tags'| == |tags| && Ignored(c, order, groups, q, tags, tags', k)
    {
      var at := Place(b, g, group[k]);
      MemberHolds(c, groups, q, k);
      OneMoreIgnored(c, order, groups, q, tags, tags', k, at);
      tags' := tags'[at := Ignore];
    }
    var last := Place(b, g, group[|group| - 1]);
    MemberHolds(c, groups, q, |group| - 1);
    ghost var before := tags';
    tags' := tags'[last := ElementwiseLast(q)];
    GroupIsMarked(c, order, groups, q, tags, before, last);
  }

  lemma NoneIgnored(c: seq<NodeId>, order: seq<NodeId>, groups: seq<seq<nat>>, q: nat, tags: seq<KernelTag>)
    requires |order| == |tags|
    ensures Ignored(c, order, groups, q, tags, tags, 0)
  {
  }

  lemma MemberHolds(c: seq<NodeId>, groups: seq<seq<nat>>, q: nat, x: nat)
    requires q < |groups| && x < |groups[q]| && groups[q][x] < |c|
    ensures Holds(c, groups, q, x, c[groups[q][x]])
  {
  }

  lemma GroupIsMarked(c: seq<NodeId>, order: seq<NodeId>, groups: seq<seq<nat>>, q: nat, tags: seq<KernelTag>,
                      tags': seq<KernelTag>, last: nat)
    requires |order| == |tags| && NoRepeats(order) && NoRepeats(c) && last < |order| && q < |groups| && groups[q] != []
    requires forall x, y :: 0 <= x < y < |groups[q]| ==> groups[q][x] < groups[q][y]
    requires Ignored(c, order, groups, q, tags, tags', |groups[q]|) && Holds(c, groups, q, |groups[q]| - 1, order[last])
    ensures var marked := tags'[last := ElementwiseLast(q)];
            && (forall p :: 0 <= p < |tags| && (forall x: nat :: !Holds(c, groups, q, x, order[p])) ==> marked[p] == tags[p])
            && (forall p, x: nat :: 0 <= p < |tags| && Holds(c, groups, q, x, order[p]) ==>
                  marked[p] == if x == |groups[q]| - 1 then ElementwiseLast(q) else Ignore)
  {
    forall p, x: nat | 0 <= p < |tags| && Holds(c, groups, q, x, order[p])
      ensures tags'[last := ElementwiseLast(q)][p] == if x == |groups[q]| - 1 then ElementwiseLast(q) else Ignore
    {
      LastMarked(c, order, groups, q, tags, tags', last, x, p);
    }
    hide NoRepeats;
  }

  /** Where candidate `ord` stands in the order of all nodes. */
  function Place(b: Builder, ghost g: Graph, ord: nat): (p: nat)
    requires b.Valid(g) && ord < |b.elementwise.ordered|
    ensures p < |b.nodes.ordered| && b.nodes.ordered[p] == b.elementwise.ordered[ord]
  {
    var id := b.elementwise.ordered[ord];
    assert id in Candidates(g, b.nodes.ordered);
    assert id in b.nodes.ordered;
    b.nodes.id2order[id]
  }

  method Tag(b: Builder, ghost g: Graph, groups: seq<seq<nat>>, ghost r: Classes) returns (tags: seq<KernelTag>)
    requires b.Valid(g) && |r| == |b.elementwise.ordered| && BigGroups(b.elementwise.ordered, r, groups)
    ensures |tags| == |b.nodes.ordered|
    ensures forall p :: 0 <= p < |tags| ==> TagIs(b.elementwise.ordered, groups, |groups|, b.nodes.ordered[p], tags[p])
  {
    hide IsTopological, Candidates;
    ghost var c := b.elementwise.ordered;
    tags := seq(|b.nodes.ordered|, _ => Single);
    for q := 0 to |groups|
      invariant |tags| == |b.nodes.ordered|
      invariant forall p :: 0 <= p < |tags| ==> TagIs(c, groups, q, b.nodes.ordered[p], tags[p])
    {
      ghost var before := tags;
      tags := MarkGroup(b, g, tags, groups, q);
      forall p | 0 <= p < |tags| ensures TagIs(c, groups, q + 1, b.nodes.ordered[p], tags[p]) {
        TagStep(c, r, groups, q, b.nodes.ordered[p], before[p], tags[p]);
      }
    }
  }

  lemma TagStep(c: seq<NodeId>, r: Classes, groups: seq<seq<nat>>, q: nat, n: NodeId, before: KernelTag, tag: KernelTag)
    requires |r| == |c| && NoRepeats(c) && BigGroups(c, r, groups) && q < |groups| && TagIs(c, groups, q, n, before)
    requires (forall x: nat :: !Holds(c, groups, q, x, n)) ==> tag == before
    requires forall x: nat :: Holds(c, groups, q, x, n) ==> tag == if x == |groups[q]| - 1 then ElementwiseLast(q) else Ignore
    ensures TagIs(c, groups, q + 1, n, tag)
  {
    if x: nat :| Holds(c, groups, q, x, n) {
      forall p: nat, y: nat | p < q + 1 && Holds(c, groups, p, y, n) ensures p == q {
        OneGroupEach(c, r, groups, p, y, q, x, n);
      }
    }
  }

  lemma OneGroupEach(c: seq<NodeId>, r: Classes, groups: seq<seq<nat>>, p: nat, y: nat, q: nat, x: nat, n: NodeId)
    requires |r| == |c| && NoRepeats(c) && BigGroups(c, r, groups)
    requires Holds(c, groups, p, y, n) && Holds(c, groups, q, x, n)
    ensures p == q
  {
    var i := groups[p][y];
    assert i == groups[q][x];
    assert i in groups[p] && i in groups[q];
    assert r[groups[p][0]] == r[i] == r[groups[q][0]];
    assert groups[p][0] in groups[p] && groups[q][0] in groups[q];
  }

  // ----- emission -----

  /** The tag tells how n's class stands to n. */
  lemma TagMeaning(c: seq<NodeId>, r: Classes, groups: seq<seq<nat>>, n: NodeId, tag: KernelTag)
    requires |r| == |c| && NoRepeats(c) && BigGroups(c, r, groups) && TagIs(c, groups, |groups|, n, tag)
    ensures tag == Ignore <==> HasLater(c, r, n)
    ensures tag.ElementwiseLast? ==> HasEarlier(c, r, n) && tag.group < |groups| && ClassEndingAt(c, r, n, groups[tag.group])
    ensures tag == Single ==> !HasEarlier(c, r, n)
  {
    if q: nat, x: nat :| Holds(c, groups, q, x, n) {
      var g, m := groups[q], |groups[q]| - 1;
      assert g[x] in g;
      if x == m {
        assert g[0] in g && g[0] < g[m] && r[g[0]] == r[g[m]];
        forall i, j | 0 <= i < |c| && 0 <= j < |c| && c[i] == n && r[i] == r[j] ensures j <= i {
          assert i == g[m] && j in g;
        }
      } else {
        assert g[m] in g && g[x] < g[m];
      }
    } else {
      forall i, j | 0 <= i < |c| && 0 <= j < |c| && i != j && r[i] == r[j] ensures c[i] != n {
        HeldSomewhere(c, r, groups, i, j);
      }
    }
  }

  lemma HeldSomewhere(c: seq<NodeId>, r: Classes, groups: seq<seq<nat>>, i: nat, j: nat)
    requires |r| == |c| && BigGroups(c, r, groups) && i < |c| && j < |c| && i != j && r[i] == r[j]
    ensures exists q: nat, x: nat :: Holds(c, groups, q, x, c[i])
  {
    assert InSome(groups, i);
    var q := GroupWith(groups, i);
    var x :| 0 <= x < |groups[q]| && groups[q][x] == i;
    assert Holds(c, groups, q, x, c[i]);
  }

  method SingleKernel(g: Graph, n: NodeId) returns (k: Kernel)
    requires g.Live(n)
    ensures IsSingle(g, n, k)
  {
    var node := g.nodes[n];
    var body := if node.op.Elementwise? then ElementWises([(node.op, PresentSlots(node.inputs, 0))]) else OpaqueBody(node.op);
    k := Kernel(node.inputs, node.outputs, body);
  }

  lemma CandidatesBundle(b: Builder, g: Graph)
    requires b.Valid(g)
    ensures NoRepeats(b.elementwise.ordered) && AllBundle(g, b.elementwise.ordered)
  {
    hide IsTopological, Bundles;
    var c := b.elementwise.ordered;
    forall x | 0 <= x < |c| ensures Bundles(g, c[x]) {
      assert c[x] in c;
    }
  }

  lemma MembersAreBundle(g: Graph, c: seq<NodeId>, r: Classes, n: NodeId, group: seq<nat>)
    requires NoRepeats(c) && AllBundle(g, c) && |r| == |c| && ClassEndingAt(c, r, n, group)
    ensures var members := Members(c, group);
            members != [] && members[|members| - 1] == n && AllBundle(g, members) && NoRepeats(members)
  {
    hide Bundles;
    var members := Members(c, group);
    forall x, y | 0 <= x < y < |members| ensures members[x] != members[y] {
      assert group[x] < group[y];
    }
  }

  method GroupKernel(b: Builder, g: Graph, n: NodeId, group: seq<nat>, ghost r: Classes) returns (k: Kernel)
    requires b.Valid(g) && g.SingleDefinition() && |r| == |b.elementwise.ordered| && g.Live(n)
    requires ClassEndingAt(b.elementwise.ordered, r, n, group)
    ensures IsBundle(g, Members(b.elementwise.ordered, group), k)
  {
    hide IsBundle, AllBundle, NoRepeats, Builder.Valid, Members, Graph.SingleDefinition;
    CandidatesBundle(b, g);
    MembersAreBundle(g, b.elementwise.ordered, r, n, group);
    var members := Members(b.elementwise.ordered, group);
    var body, inputs := BuildBundledOps(g, members);
    k := Kernel(inputs, g.nodes[n].outputs, body);
  }

  /** Groups the elementwise nodes and emits one kernel per group or remaining node. */
  method Run(b: Builder, g: Graph, used: UseIndex) returns (kernels: seq<Kernel>, ghost r: Classes)
    requires b.Valid(g) && g.WellFormed() && IndexesUses(g, used)
    ensures |r| == |b.elementwise.ordered| && Grouped(g, b.elementwise.ordered, r, 0)
    ensures forall i :: 0 <= i < |b.nodes.ordered| ==> g.Live(b.nodes.ordered[i])
    ensures Emitted(g, b.elementwise.ordered, r, b.nodes.ordered, |b.nodes.ordered|, kernels)
  {
    hide Grouped, BigGroups, IsTopological, Candidates, Emitted;
    var groups;
    groups, r := Group(b, g, used);
    var tags := Tag(b, g, groups, r);
    OrderIsLive(b, g);
    kernels := Emit(b, g, groups, tags, r);
  }

  lemma OrderIsLive(b: Builder, g: Graph)
    requires b.Valid(g)
    ensures forall i :: 0 <= i < |b.nodes.ordered| ==> g.Live(b.nodes.ordered[i])
  {
    assert forall i :: 0 <= i < |b.nodes.ordered| ==> b.nodes.ordered[i] in b.nodes.ordered;
  }

  /** The emission loop. */
  method Emit(b: Builder, g: Graph, groups: seq<seq<nat>>, tags: seq<KernelTag>, ghost r: Classes)
    returns (kernels: seq<Kernel>)
    requires b.Valid(g) && g.SingleDefinition() && |r| == |b.elementwise.ordered|
    requires BigGroups(b.elementwise.ordered, r, groups)
    requires forall i :: 0 <= i < |b.nodes.ordered| ==> g.Live(b.nodes.ordered[i])
    requires |tags| == |b.nodes.ordered|
    requires forall p :: 0 <= p < |tags| ==> TagIs(b.elementwise.ordered, groups, |groups|, b.nodes.ordered[p], tags[p])
    ensures Emitted(g, b.elementwise.ordered, r, b.nodes.ordered, |b.nodes.ordered|, kernels)
  {
    hide IsTopological, Candidates, BigGroups, NoRepeats, IsBundle, IsSingle, ClassEndingAt, TagIs;
    ghost var c := b.elementwise.ordered;
    var order := b.nodes.ordered;
    kernels := [];
    for p := 0 to |order|
      invariant Emitted(g, c, r, order, p, kernels)
    {
      TagMeaning(c, r, groups, order[p], tags[p]);
      if tags[p] != Ignore {
        var k;
        if tags[p] == Single {
          k := SingleKernel(g, order[p]);
        } else {
          k := GroupKernel(b, g, order[p], groups[tags[p].group], r);
        }
        assert (kernels + [k])[..|kernels|] == kernels;
        kernels := kernels + [k];
      }
    }
  }

  lemma AloneIsGrouped(g: Graph, c: seq<NodeId>, r: Classes)
    requires |r| == |c| && forall i :: 0 <= i < |c| ==> Bundles(g, c[i]) && r[i] == i
    ensures Grouped(g, c, r, |c|)
  {
  }

  /** The fusion loop, in reverse topological order. */
  method FuseAll(b: Builder, g: Graph, used: UseIndex, uf: UnionFind)
    requires b.Valid(g) && IndexesUses(g, used) && uf.Valid() && uf.State().forest.Valid()
    requires |uf.parents| == |b.elementwise.ordered|
    requires Grouped(g, b.elementwise.ordered, Labelling(uf.State().forest), |b.elementwise.ordered|)
    modifies uf
    ensures uf.Valid() && uf.State().forest.Valid() && |uf.parents| == |b.elementwise.ordered|
    ensures Grouped(g, b.elementwise.ordered, Labelling(uf.State().forest), 0)
  {
    hide Sets.Valid, Root, Forest.Valid, IndexesUses, Grouped, Labelling, IsTopological;
    var c := b.elementwise.ordered;
    for k := |c| downto 0
      invariant uf.Valid() && |uf.parents| == |c| && uf.State().forest.Valid()
      invariant Grouped(g, c, Labelling(uf.State().forest), k)
    {
      assert b.elementwise.id2order[c[k]] == k;
      TryFuse(b, c[k], g, used, uf);
      Shape(uf.State());
    }
  }

  /** The groups fusion leaves, and the class labels behind them. */
  method Group(b: Builder, g: Graph, used: UseIndex) returns (groups: seq<seq<nat>>, ghost r: Classes)
    requires b.Valid(g) && IndexesUses(g, used)
    ensures |r| == |b.elementwise.ordered| && Grouped(g, b.elementwise.ordered, r, 0)
    ensures BigGroups(b.elementwise.ordered, r, groups)
  {
    hide Sets.Valid, Root, Forest.Valid, IndexesUses, AreGroups, BigGroups, Grouped, IsTopological, NoRepeats;
    var c := b.elementwise.ordered;
    var uf := new UnionFind(|c|);
    Shape(uf.State());
    assert forall i :: 0 <= i < |c| ==> c[i] in Candidates(g, b.nodes.ordered);
    ghost var r0 := Labelling(uf.State().forest);
    assert forall i :: 0 <= i < |c| ==> r0[i] == uf.RootOf(i) == i;
    AloneIsGrouped(g, c, r0);
    FuseAll(b, g, used, uf);
    ghost var f := uf.State().forest;
    var all := uf.Groups();
    SameLabels(f, uf.State().forest);
    r := Labelling(uf.State().forest);
    groups := BigOnes(all, uf.State().forest, c);
  }
}
