/** Running the emitted kernels: every input is there when it is needed, and every value a
    kernel hands out is the one the nodes compute one by one. */
module KernelFusion {
  import opened Options
  import opened GraphModel
  import opened TopologicalOrder
  import opened Kernels
  import opened KernelMeaning

  // ----- running one kernel -----

  /** The value an argument stands for, given the kernel's inputs and the results so far. */
  function ArgValue<T>(ins: seq<Option<T>>, results: seq<T>, arg: Arg): Option<T> {
    match arg
    case Input(x) => if x < |ins| then ins[x] else None
    case NthResult(k) => if k < |results| then Some(results[k]) else None
  }

  function ArgValues<T>(ins: seq<Option<T>>, results: seq<T>, args: seq<Arg>): Option<seq<T>> {
    if args == [] then Some([])
    else
      match (ArgValue(ins, results, args[0]), ArgValues(ins, results, args[1..]))
      case (Some(v), Some(vs)) => Some([v] + vs)
      case (_, _) => None
  }

  /** Results of the first j operators of an elementwise program. */
  function OpResults<T>(m: Meaning<T>, ops: seq<(Operator, seq<Arg>)>, j: nat, ins: seq<Option<T>>): Option<seq<T>>
    requires j <= |ops|
  {
    if j == 0 then Some([])
    else
      match OpResults(m, ops, j - 1, ins)
      case None => None
      case Some(results) =>
        match ArgValues(ins, results, ops[j - 1].1)
        case None => None
        case Some(args) => Some(results + [m.elementwise(ops[j - 1].0, args, 0)])
  }

  /** The kernel's results, or `None` if an input or argument is missing. */
  ghost function KernelResults<T>(m: Meaning<T>, k: Kernel, env: Env<T>): Option<nat -> T> {
    if !Available(env, k.inputs) then None
    else
      var ins := Lookup(env, k.inputs);
      match k.body
      case OpaqueBody(op) => Some((j: nat) => m.general(op, ins, j))
      case ElementWises(ops) =>
        if ops == [] then None
        else
          var last := |ops| - 1;
          match OpResults(m, ops, last, ins)
          case None => None
          case Some(results) =>
            match ArgValues(ins, results, ops[last].1)
            case None => None
            case Some(args) => Some((j: nat) => m.elementwise(ops[last].0, args, j))
  }

  ghost function KernelRun<T>(m: Meaning<T>, kernels: seq<Kernel>, env0: Env<T>): Option<Env<T>> {
    if kernels == [] then Some(env0)
    else
      var k := kernels[|kernels| - 1];
      match KernelRun(m, kernels[..|kernels| - 1], env0)
      case None => None
      case Some(env) =>
        match KernelResults(m, k, env)
        case None => None
        case Some(result) => Some(Bind(env, k.outputs, result))
  }

  // ----- one kernel is right -----

  /** Given inputs with their node-by-node values, the kernel's result j is node n's. */
  ghost predicate Right<T>(g: Graph, m: Meaning<T>, n: NodeId, k: Kernel, env: Env<T>, ref: Env<T>)
    requires g.Live(n)
  {
    && KernelResults(m, k, env).Some?
    && Available(ref, g.nodes[n].inputs)
    && forall j: nat :: KernelResults(m, k, env).value(j) == NodeResult(m, g.nodes[n], ref, j)
  }

  /** A slot that is given adds its value in front. */
  lemma FirstSlotValue<T>(env: Env<T>, ins: seq<Option<T>>, results: seq<T>, inputs: seq<Option<ValueId>>, from: nat)
    requires inputs != [] && inputs[0].Some? && inputs[0].value in env && from < |ins| && ins[from] == Some(env[inputs[0].value])
    requires forall i :: 0 <= i < |Present(inputs[1..])| ==> Present(inputs[1..])[i] in env
    requires ArgValues(ins, results, PresentSlots(inputs[1..], from + 1)) == Some(Values(env, Present(inputs[1..])))
    ensures forall i :: 0 <= i < |Present(inputs)| ==> Present(inputs)[i] in env
    ensures ArgValues(ins, results, PresentSlots(inputs, from)) == Some(Values(env, Present(inputs)))
  {
    var args, rest := PresentSlots(inputs, from), Present(inputs[1..]);
    assert args == [Arg.Input(from)] + PresentSlots(inputs[1..], from + 1);
    assert args[1..] == PresentSlots(inputs[1..], from + 1);
    assert Present(inputs) == [inputs[0].value] + rest;
    assert Values(env, Present(inputs)) == [env[inputs[0].value]] + Values(env, rest);
  }

  lemma {:induction false} SlotValues<T>(env: Env<T>, ins: seq<Option<T>>, results: seq<T>,
                      inputs: seq<Option<ValueId>>, from: nat)
    requires Available(env, inputs) && |ins| == from + |inputs| && ins[from..] == Lookup(env, inputs)
    requires forall i :: 0 <= i < |Present(inputs)| ==> Present(inputs)[i] in env
    ensures ArgValues(ins, results, PresentSlots(inputs, from)) == Some(Values(env, Present(inputs)))
    decreases |inputs|
  {
    if inputs == [] {
    } else {
      var rest := inputs[1..];
      assert ins[from + 1..] == Lookup(env, rest) by {
        assert ins[from + 1..] == ins[from..][1..];
      }
      PresentAvailable(env, rest);
      SlotValues(env, ins, results, rest, from + 1);
      if inputs[0].Some? {
        assert ins[from] == ins[from..][0];
        FirstSlotValue(env, ins, results, inputs, from);
      } else {
        assert PresentSlots(inputs, from) == PresentSlots(rest, from + 1);
        assert Present(inputs) == Present(rest);
      }
    }
  }

  lemma SingleIsRight<T>(g: Graph, m: Meaning<T>, n: NodeId, k: Kernel, env: Env<T>, ref: Env<T>)
    requires g.Live(n) && IsSingle(g, n, k) && Available(env, g.nodes[n].inputs) && Agrees(env, ref)
    ensures Right(g, m, n, k, env, ref)
  {
    var node := g.nodes[n];
    forall j: nat
      ensures Available(ref, node.inputs) && NodeResult(m, node, ref, j) == NodeResult(m, node, env, j)
    {
      SameResult(m, node, env, ref, j);
    }
    if node.op.Elementwise? {
      var ins := Lookup(env, node.inputs);
      assert ins[0..] == ins;
      PresentAvailable(env, node.inputs);
      SlotValues(env, ins, [], node.inputs, 0);
    }
  }

  /** Node-by-node values of the first j members. */
  ghost function RefResults<T>(g: Graph, members: seq<NodeId>, j: nat, ref: Env<T>): (r: seq<T>)
    requires AllBundle(g, members) && j <= |members|
    requires forall x :: 0 <= x < |members| ==> ResultOf(g, members, x) in ref
    ensures |r| == j && forall x :: 0 <= x < j ==> r[x] == ref[ResultOf(g, members, x)]
  {
    seq(j, x requires 0 <= x < j => ref[ResultOf(g, members, x)])
  }

  ghost predicate MembersSolved<T>(g: Graph, m: Meaning<T>, members: seq<NodeId>, ref: Env<T>)
    requires AllBundle(g, members)
  {
    forall x :: 0 <= x < |members| ==> NodeSolved(g, m, members[x], ref) && ResultOf(g, members, x) in ref
  }

  lemma {:induction false} BundleArgValues<T>(g: Graph, members: seq<NodeId>, j: nat, args: seq<Arg>, vs: seq<ValueId>,
                                              inputs: seq<Option<ValueId>>, env: Env<T>, ref: Env<T>)
    requires AllBundle(g, members) && j < |members| && |args| == |vs|
    requires forall x :: 0 <= x < |members| ==> ResultOf(g, members, x) in ref
    requires forall x :: 0 <= x < |vs| ==> ArgReads(g, members, j, args[x], vs[x], inputs)
    requires Available(env, inputs) && Agrees(env, ref)
    ensures forall x :: 0 <= x < |vs| ==> vs[x] in ref
    ensures ArgValues(Lookup(env, inputs), RefResults(g, members, j, ref), args) == Some(Values(ref, vs))
    decreases |args|
  {
    if args != [] {
      BundleArgValues(g, members, j, args[1..], vs[1..], inputs, env, ref);
      assert ArgReads(g, members, j, args[0], vs[0], inputs) && vs[0] in ref;
      hide ArgReads, AllBundle;
      FirstInMap(ref, vs);
    }
  }

  lemma FirstInMap<T>(ref: Env<T>, vs: seq<ValueId>)
    requires vs != [] && vs[0] in ref && forall x :: 0 <= x < |vs[1..]| ==> vs[1..][x] in ref
    ensures forall x :: 0 <= x < |vs| ==> vs[x] in ref
    ensures Values(ref, vs) == [ref[vs[0]]] + Values(ref, vs[1..])
  {
    assert forall x :: 1 <= x < |vs| ==> vs[x] == vs[1..][x - 1];
  }

  /** The arguments of member j come out as the node-by-node values of its inputs. */
  lemma MemberArgs<T>(g: Graph, m: Meaning<T>, members: seq<NodeId>, j: nat, k: Kernel, env: Env<T>, ref: Env<T>)
    requires IsBundle(g, members, k) && j < |members| && MembersSolved(g, m, members, ref)
    requires Available(env, k.inputs) && Agrees(env, ref)
    ensures Available(ref, g.nodes[members[j]].inputs)
    ensures var node := g.nodes[members[j]];
            var args := ArgValues(Lookup(env, k.inputs), RefResults(g, members, j, ref), k.body.ops[j].1);
            args.Some? && forall q: nat :: m.elementwise(k.body.ops[j].0, args.value, q) == NodeResult(m, node, ref, q)
  {
    var node := g.nodes[members[j]];
    assert NodeSolved(g, m, members[j], ref);
    PresentAvailable(ref, node.inputs);
    BundleArgValues(g, members, j, k.body.ops[j].1, Present(node.inputs), k.inputs, env, ref);
  }

  lemma {:induction false} MemberResults<T>(g: Graph, m: Meaning<T>, members: seq<NodeId>, j: nat, k: Kernel,
                      env: Env<T>, ref: Env<T>)
    requires IsBundle(g, members, k) && j <= |members| && MembersSolved(g, m, members, ref)
    requires Available(env, k.inputs) && Agrees(env, ref)
    ensures OpResults(m, k.body.ops, j, Lookup(env, k.inputs)) == Some(RefResults(g, members, j, ref))
  {
    hide NodeResult, ArgValues, IsExternal, OpReads;
    if 0 < j {
      MemberResults(g, m, members, j - 1, k, env, ref);
      MemberArgs(g, m, members, j - 1, k, env, ref);
      assert NodeSolved(g, m, members[j - 1], ref);
      assert RefResults(g, members, j, ref) ==
             RefResults(g, members, j - 1, ref) + [ref[ResultOf(g, members, j - 1)]];
    }
  }

  lemma BundleIsRight<T>(g: Graph, m: Meaning<T>, members: seq<NodeId>, k: Kernel, env: Env<T>, ref: Env<T>)
    requires IsBundle(g, members, k) && MembersSolved(g, m, members, ref)
    requires Available(env, k.inputs) && Agrees(env, ref)
    ensures Right(g, m, members[|members| - 1], k, env, ref)
  {
    hide NodeResult, ArgValues, IsExternal, OpReads, OpResults;
    var last := |members| - 1;
    MemberResults(g, m, members, last, k, env, ref);
    MemberArgs(g, m, members, last, k, env, ref);
  }

  // ----- which values are there -----

  /** A node among the first p that no later node of its class stands for defines v. */
  ghost predicate Visible(g: Graph, c: seq<NodeId>, r: Classes, order: seq<NodeId>, p: nat, v: ValueId)
    requires |r| == |c| && p <= |order|
  {
    exists q :: 0 <= q < p && !HasLater(c, r, order[q]) && g.Defines(order[q], v)
  }

  /** The setting: a topological order, its candidates and their classes. */
  ghost predicate Setting(g: Graph, c: seq<NodeId>, r: Classes, order: seq<NodeId>) {
    && g.SingleDefinition() && IsTopological(g, order)
    && (forall i :: 0 <= i < |order| ==> g.Computes(order[i]))
    && c == Candidates(g, order) && |r| == |c| && Grouped(g, c, r, 0)
  }

  /** A value read outside its definer's class is visible: its definer has no later mate. */
  lemma ReadOutside(g: Graph, c: seq<NodeId>, r: Classes, order: seq<NodeId>, d: NodeId, n: NodeId, v: ValueId)
    requires Setting(g, c, r, order) && g.Live(n) && HasLater(c, r, d)
    requires g.Defines(d, v) && g.nodes[n].Reads(v)
    ensures exists i, j :: 0 <= i < j < |c| && c[i] == d && c[j] == n && r[i] == r[j]
  {
    hide IsTopological;
    var i, j :| 0 <= i < j < |c| && c[i] == d && r[i] == r[j];
    assert JoinsReaders(g, c, r, i);
    var u :| 0 <= u < |c| && r[u] == r[i] && ReadersIn(g, c, r, c[i], u);
    var s :| 0 <= s < |g.nodes[n].inputs| && g.nodes[n].inputs[s] == Some(v);
    assert g.nodes[d].outputs[0] == v;
    assert g.ReadsAt(n, s, v);
    assert SameClass(c, r, u, n);
    var j' :| 0 <= j' < |c| && c[j'] == n && r[j'] == r[u];
    assert g.Edge(c[i], c[j']);
    CandidateEdgesForward(g, order, i, j');
  }

  lemma VisibleOrStarting<T>(g: Graph, c: seq<NodeId>, r: Classes, order: seq<NodeId>, p: nat, env0: Env<T>, v: ValueId)
    requires Setting(g, c, r, order) && Supplies(g, env0) && p < |order|
    requires g.nodes[order[p]].Reads(v) && !HasEarlier(c, r, order[p])
    ensures v in env0 || Visible(g, c, r, order, p, v)
  {
    if v !in env0 {
      var q := Definer(g, order, p, v);
      assert g.Defines(order[q], v);
      if HasLater(c, r, order[q]) {
        ReadOutside(g, c, r, order, order[q], order[p], v);
      }
    }
  }

  /** An external input of a bundle is there when the bundle runs. */
  lemma ExternalVisible<T>(g: Graph, c: seq<NodeId>, r: Classes, order: seq<NodeId>, p: nat, group: seq<nat>,
                           j: nat, env0: Env<T>, v: ValueId)
    requires Setting(g, c, r, order) && Supplies(g, env0) && p < |order|
    requires ClassEndingAt(c, r, order[p], group) && AllBundle(g, Members(c, group)) && j < |group|
    requires ExternalAt(g, Members(c, group), j, v)
    ensures v in env0 || Visible(g, c, r, order, p, v)
  {
    if v !in env0 {
      var at := MemberPlace(g, c, r, order, p, group, j);
      var q := Definer(g, order, at, v);
      assert g.Defines(order[q], v);
      if HasLater(c, r, order[q]) {
        ReadOutside(g, c, r, order, order[q], c[group[j]], v);
        InternalDefiner(g, c, r, order[q], order[p], order, group, j, v);
        assert false;
      }
    }
  }

  /** Members stand no later than the last one. */
  lemma MemberPlace(g: Graph, c: seq<NodeId>, r: Classes, order: seq<NodeId>, p: nat, group: seq<nat>, j: nat)
    returns (at: nat)
    requires Setting(g, c, r, order) && p < |order| && ClassEndingAt(c, r, order[p], group) && j < |group|
    ensures at <= p && order[at] == c[group[j]]
  {
    CandidatesKeepOrder(g, order);
    var last := |group| - 1;
    if j == last {
      at := p;
    } else {
      assert Before(order, c[group[j]], c[group[last]]);
      var i, i' :| 0 <= i < i' < |order| && order[i] == c[group[j]] && order[i'] == c[group[last]];
      at := i;
    }
  }

  /** A definer in the same class is an earlier member of the bundle. */
  lemma InternalDefiner(g: Graph, c: seq<NodeId>, r: Classes, d: NodeId, n: NodeId, order: seq<NodeId>, group: seq<nat>,
                        j: nat, v: ValueId)
    requires Setting(g, c, r, order) && ClassEndingAt(c, r, n, group) && j < |group|
    requires AllBundle(g, Members(c, group)) && g.Defines(d, v)
    requires exists i, i' :: 0 <= i < i' < |c| && c[i] == d && c[i'] == c[group[j]] && r[i] == r[i']
    ensures exists k :: 0 <= k < j && ResultOf(g, Members(c, group), k) == v
  {
    hide Grouped, IsTopological, SameClass, NoRepeats;
    var i, i' :| 0 <= i < i' < |c| && c[i] == d && c[i'] == c[group[j]] && r[i] == r[i'];
    CandidatesDiffer(g, c, r, order, i', group[j]);
    var k := EarlierMember(c, r, n, group, i, j);
    assert Bundles(g, Members(c, group)[k]);
    assert ResultOf(g, Members(c, group), k) == v;
  }

  lemma CandidatesDiffer(g: Graph, c: seq<NodeId>, r: Classes, order: seq<NodeId>, i: nat, j: nat)
    requires Setting(g, c, r, order) && i < |c| && j < |c| && c[i] == c[j]
    ensures i == j
  {
    hide Grouped;
    CandidatesKeepOrder(g, order);
  }

  lemma EarlierMember(c: seq<NodeId>, r: Classes, n: NodeId, group: seq<nat>, i: nat, j: nat) returns (k: nat)
    requires |r| == |c| && ClassEndingAt(c, r, n, group) && j < |group| && i < group[j] && r[i] == r[group[j]]
    ensures k < j && group[k] == i
  {
    assert group[j] in group;
    assert i in group;
    k :| 0 <= k < |group| && group[k] == i;
  }

  // ----- the whole kernel list -----

  ghost predicate Reference<T>(g: Graph, m: Meaning<T>, order: seq<NodeId>, env0: Env<T>, ref: Env<T>)
    requires forall i :: 0 <= i < |order| ==> g.Live(order[i])
  {
    Agrees(env0, ref) && forall q :: 0 <= q < |order| ==> NodeSolved(g, m, order[q], ref)
  }

  /** The inputs of the kernel at position p are there, and its results are right. */
  lemma KernelIsRight<T>(g: Graph, m: Meaning<T>, c: seq<NodeId>, r: Classes, order: seq<NodeId>, p: nat, k: Kernel,
                         env0: Env<T>, env: Env<T>, ref: Env<T>)
    requires Setting(g, c, r, order) && Supplies(g, env0) && p < |order| && KernelAt(g, c, r, order[p], k)
    requires Reference(g, m, order, env0, ref) && Agrees(env, ref)
    requires forall v: ValueId :: v in env0 || Visible(g, c, r, order, p, v) ==> v in env
    ensures k.outputs == g.nodes[order[p]].outputs && Right(g, m, order[p], k, env, ref)
  {
    hide Supplies, HasEarlier, HasLater, IsTopological, Grouped, NodeResult, KernelResults, Reference, Agrees, Right, Visible;
    var n := order[p];
    if HasEarlier(c, r, n) {
      var group: seq<nat> :| ClassEndingAt(c, r, n, group) && IsBundle(g, Members(c, group), k);
      BundleAtIsRight(g, m, c, r, order, p, group, k, env0, env, ref);
    } else {
      SingleAtIsRight(g, m, c, r, order, p, k, env0, env, ref);
    }
  }

  lemma BundleAtIsRight<T>(g: Graph, m: Meaning<T>, c: seq<NodeId>, r: Classes, order: seq<NodeId>, p: nat, group: seq<nat>,
                           k: Kernel, env0: Env<T>, env: Env<T>, ref: Env<T>)
    requires Setting(g, c, r, order) && Supplies(g, env0) && p < |order|
    requires ClassEndingAt(c, r, order[p], group) && IsBundle(g, Members(c, group), k)
    requires Reference(g, m, order, env0, ref) && Agrees(env, ref)
    requires forall v: ValueId :: v in env0 || Visible(g, c, r, order, p, v) ==> v in env
    ensures k.outputs == g.nodes[order[p]].outputs && Right(g, m, order[p], k, env, ref)
  {
    hide Supplies, HasEarlier, HasLater, IsTopological, Grouped, NodeResult, KernelResults, Right, Visible;
    var members := Members(c, group);
    BundleInputs(g, c, r, order, p, group, k, env0, env);
    forall x | 0 <= x < |members| ensures NodeSolved(g, m, members[x], ref) && ResultOf(g, members, x) in ref {
      MemberSolved(g, m, c, order, members[x], env0, ref);
    }
    BundleIsRight(g, m, members, k, env, ref);
  }

  lemma SingleAtIsRight<T>(g: Graph, m: Meaning<T>, c: seq<NodeId>, r: Classes, order: seq<NodeId>, p: nat,
                           k: Kernel, env0: Env<T>, env: Env<T>, ref: Env<T>)
    requires Setting(g, c, r, order) && Supplies(g, env0) && p < |order| && IsSingle(g, order[p], k)
    requires !HasEarlier(c, r, order[p]) && Agrees(env, ref)
    requires forall v: ValueId :: v in env0 || Visible(g, c, r, order, p, v) ==> v in env
    ensures k.outputs == g.nodes[order[p]].outputs && Right(g, m, order[p], k, env, ref)
  {
    hide Supplies, HasEarlier, HasLater, IsTopological, Grouped, NodeResult, KernelResults, Right, Visible;
    var n := order[p];
    forall i | 0 <= i < |g.nodes[n].inputs| && g.nodes[n].inputs[i].Some?
      ensures g.nodes[n].inputs[i].value in env
    {
      VisibleOrStarting(g, c, r, order, p, env0, g.nodes[n].inputs[i].value);
    }
    SingleIsRight(g, m, n, k, env, ref);
  }

  lemma BundleInputs<T>(g: Graph, c: seq<NodeId>, r: Classes, order: seq<NodeId>, p: nat, group: seq<nat>, k: Kernel,
                        env0: Env<T>, env: Env<T>)
    requires Setting(g, c, r, order) && Supplies(g, env0) && p < |order|
    requires ClassEndingAt(c, r, order[p], group) && IsBundle(g, Members(c, group), k)
    requires forall v: ValueId :: v in env0 || Visible(g, c, r, order, p, v) ==> v in env
    ensures Available(env, k.inputs)
  {
    forall x | 0 <= x < |k.inputs| && k.inputs[x].Some? ensures k.inputs[x].value in env {
      var v := k.inputs[x].value;
      assert IsExternal(g, Members(c, group), k.inputs[x]);
      var j :| 0 <= j < |group| && ExternalAt(g, Members(c, group), j, v);
      ExternalVisible(g, c, r, order, p, group, j, env0, v);
    }
  }

  lemma MemberSolved<T>(g: Graph, m: Meaning<T>, c: seq<NodeId>, order: seq<NodeId>, n: NodeId, env0: Env<T>, ref: Env<T>)
    requires forall i :: 0 <= i < |order| ==> g.Live(order[i])
    requires c == Candidates(g, order) && Reference(g, m, order, env0, ref) && n in c
    ensures Bundles(g, n) && NodeSolved(g, m, n, ref) && g.nodes[n].outputs[0] in ref
  {
    var q :| 0 <= q < |order| && order[q] == n;
    assert NodeSolved(g, m, order[q], ref);
  }

  lemma {:induction false} KernelRunRight<T>(g: Graph, m: Meaning<T>, c: seq<NodeId>, r: Classes, order: seq<NodeId>,
                                             p: nat, kernels: seq<Kernel>, env0: Env<T>, ref: Env<T>) returns (env: Env<T>)
    requires Setting(g, c, r, order) && Supplies(g, env0) && p <= |order|
    requires Emitted(g, c, r, order, p, kernels) && Reference(g, m, order, env0, ref)
    ensures KernelRun(m, kernels, env0) == Some(env) && Agrees(env, ref)
    ensures forall v: ValueId :: v in env <==> v in env0 || Visible(g, c, r, order, p, v)
    decreases p
  {
    hide IsTopological, Grouped, Supplies, KernelAt, HasLater, HasEarlier, NodeSolved, KernelResults;
    if p == 0 {
      env := env0;
    } else {
      var n := order[p - 1];
      VisibleStep(g, c, r, order, p);
      if HasLater(c, r, n) {
        env := KernelRunRight(g, m, c, r, order, p - 1, kernels, env0, ref);
      } else {
        var last := |kernels| - 1;
        var before := KernelRunRight(g, m, c, r, order, p - 1, kernels[..last], env0, ref);
        KernelIsRight(g, m, c, r, order, p - 1, kernels[last], env0, before, ref);
        env := BindRight(g, m, n, kernels[last], before, ref);
      }
    }
  }

  lemma VisibleStep(g: Graph, c: seq<NodeId>, r: Classes, order: seq<NodeId>, p: nat)
    requires |r| == |c| && 0 < p <= |order|
    ensures forall v: ValueId :: Visible(g, c, r, order, p, v) <==>
              Visible(g, c, r, order, p - 1, v) || (!HasLater(c, r, order[p - 1]) && g.Defines(order[p - 1], v))
  {
  }

  lemma BindRight<T>(g: Graph, m: Meaning<T>, n: NodeId, k: Kernel, before: Env<T>, ref: Env<T>) returns (env: Env<T>)
    requires g.Live(n) && g.SingleDefinition() && NodeSolved(g, m, n, ref) && Agrees(before, ref)
    requires k.outputs == g.nodes[n].outputs && Right(g, m, n, k, before, ref)
    ensures KernelResults(m, k, before).Some? && env == Bind(before, k.outputs, KernelResults(m, k, before).value)
    ensures Agrees(env, ref)
  {
    var result := KernelResults(m, k, before).value;
    env := Bind(before, k.outputs, result);
    forall v: ValueId | v in env ensures v in ref && ref[v] == env[v] {
      if v in k.outputs {
        var j :| 0 <= j < |k.outputs| && k.outputs[j] == v;
        BindAt(before, k.outputs, result, j);
      }
    }
  }

  /** Running the kernels never misses an input; every value it ends with is the node-by-node
      value; and it has every computed value that an output marker or other non-computing
      node reads. */
  lemma FusionPreservesMeaning<T>(g: Graph, m: Meaning<T>, c: seq<NodeId>, r: Classes, order: seq<NodeId>,
                                  kernels: seq<Kernel>, env0: Env<T>)
    returns (nodeByNode: Env<T>, byKernels: Env<T>)
    requires Setting(g, c, r, order) && Supplies(g, env0) && Emitted(g, c, r, order, |order|, kernels)
    ensures NodeRun(g, m, order, |order|, env0) == Some(nodeByNode)
    ensures KernelRun(m, kernels, env0) == Some(byKernels)
    ensures Agrees(byKernels, nodeByNode) && Agrees(env0, byKernels)
    ensures forall n: NodeId, v: ValueId :: g.Live(n) && !g.Computes(n) && g.nodes[n].Reads(v) && Computed(g, v) ==>
              v in byKernels
    ensures forall n: NodeId :: g.Computes(n) ==> NodeSolved(g, m, n, nodeByNode)
  {
    nodeByNode := NodeRunSolves(g, m, order, |order|, env0);
    byKernels := KernelRunRight(g, m, c, r, order, |order|, kernels, env0, nodeByNode);
    forall n: NodeId, v: ValueId | g.Live(n) && !g.Computes(n) && g.nodes[n].Reads(v) && Computed(g, v)
      ensures v in byKernels
    {
      OutputVisible(g, c, r, order, n, v);
    }
    forall n: NodeId | g.Computes(n) ensures NodeSolved(g, m, n, nodeByNode) {
      assert n in order;
      var q :| 0 <= q < |order| && order[q] == n;
    }
  }

  lemma OutputVisible(g: Graph, c: seq<NodeId>, r: Classes, order: seq<NodeId>, n: NodeId, v: ValueId)
    requires Setting(g, c, r, order) && g.Live(n) && !g.Computes(n) && g.nodes[n].Reads(v) && Computed(g, v)
    ensures Visible(g, c, r, order, |order|, v)
  {
    var d: NodeId :| g.Computes(d) && v in g.nodes[d].outputs;
    assert d in order;
    var q :| 0 <= q < |order| && order[q] == d;
    if HasLater(c, r, d) {
      ReadOutside(g, c, r, order, d, n, v);
    }
    assert g.Defines(order[q], v);
  }
}
