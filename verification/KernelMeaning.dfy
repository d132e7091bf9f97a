/** What nodes and kernels compute, for any meaning of the operators, and why running the
    kernels gives every value they hand out its node-by-node value. */
module KernelMeaning {
  import opened Options
  import opened GraphModel
  import opened TopologicalOrder
  import opened Kernels

  /** A meaning for every operator: the j-th result from the arguments.  Elementwise operators
      see the inputs that are given; the others see which inputs are missing. */
  datatype Meaning<!T> = Meaning(elementwise: (Operator, seq<T>, nat) -> T, general: (Operator, seq<Option<T>>, nat) -> T)

  type Env<T> = map<ValueId, T>

  ghost predicate Available<T>(env: Env<T>, inputs: seq<Option<ValueId>>) {
    forall i :: 0 <= i < |inputs| && inputs[i].Some? ==> inputs[i].value in env
  }

  function Values<T>(env: Env<T>, vs: seq<ValueId>): (r: seq<T>)
    requires forall i :: 0 <= i < |vs| ==> vs[i] in env
    ensures |r| == |vs| && forall i :: 0 <= i < |vs| ==> r[i] == env[vs[i]]
  {
    seq(|vs|, i requires 0 <= i < |vs| => env[vs[i]])
  }

  function Lookup<T>(env: Env<T>, inputs: seq<Option<ValueId>>): (r: seq<Option<T>>)
    requires forall i :: 0 <= i < |inputs| && inputs[i].Some? ==> inputs[i].value in env
    ensures |r| == |inputs|
    ensures forall i :: 0 <= i < |inputs| ==> r[i] == if inputs[i].Some? then Some(env[inputs[i].value]) else None
  {
    seq(|inputs|, i requires 0 <= i < |inputs| => if inputs[i].Some? then Some(env[inputs[i].value]) else None)
  }

  lemma {:induction false} PresentAvailable<T>(env: Env<T>, inputs: seq<Option<ValueId>>)
    requires Available(env, inputs)
    ensures forall i :: 0 <= i < |Present(inputs)| ==> Present(inputs)[i] in env
  {
    forall i | 0 <= i < |Present(inputs)| ensures Present(inputs)[i] in env {
      PresentIsRead(inputs, i);
    }
  }

  /** Result j of a node. */
  ghost function NodeResult<T>(m: Meaning<T>, node: Node, env: Env<T>, j: nat): T
    requires Available(env, node.inputs)
  {
    if node.op.Elementwise? then
      PresentAvailable(env, node.inputs);
      m.elementwise(node.op, Values(env, Present(node.inputs)), j)
    else m.general(node.op, Lookup(env, node.inputs), j)
  }

  lemma {:induction false} AllPresent(inputs: seq<Option<ValueId>>)
    requires forall i :: 0 <= i < |inputs| ==> inputs[i].Some?
    ensures |Present(inputs)| == |inputs| && forall i :: 0 <= i < |inputs| ==> Present(inputs)[i] == inputs[i].value
  {
    if inputs != [] {
      AllPresent(inputs[1..]);
    }
  }

  /** An elementwise node computes on its inputs in the order of its slots, and a missing one
      leaves no gap. */
  lemma ElementwiseInOrder<T>(m: Meaning<T>, node: Node, env: Env<T>, j: nat, args: seq<T>, a: seq<Option<ValueId>>, b: seq<Option<ValueId>>)
    requires node.op.Elementwise? && Available(env, node.inputs)
    ensures (forall i :: 0 <= i < |node.inputs| ==> node.inputs[i].Some?) && |args| == |node.inputs|
            && (forall i :: 0 <= i < |args| ==> args[i] == env[node.inputs[i].value]) ==>
              NodeResult(m, node, env, j) == m.elementwise(node.op, args, j)
    ensures node.inputs == a + [None] + b ==>
              Available(env, a + b) && NodeResult(m, node, env, j) == NodeResult(m, node.(inputs := a + b), env, j)
  {
    PresentAvailable(env, node.inputs);
    if (forall i :: 0 <= i < |node.inputs| ==> node.inputs[i].Some?) && |args| == |node.inputs|
       && (forall i :: 0 <= i < |args| ==> args[i] == env[node.inputs[i].value]) {
      AllPresent(node.inputs);
      assert Values(env, Present(node.inputs)) == args;
    }
    if node.inputs == a + [None] + b {
      WithoutGap(env, a, b);
    }
  }

  lemma WithoutGap<T>(env: Env<T>, a: seq<Option<ValueId>>, b: seq<Option<ValueId>>)
    requires Available(env, a + [None] + b)
    ensures Available(env, a + b) && Present(a + [None] + b) == Present(a + b)
  {
    PresentInOrder(a, None, b);
    JoinPresent(a, b);
    forall i | 0 <= i < |a + b| && (a + b)[i].Some? ensures (a + b)[i].value in env {
      assert (a + b)[i] == (a + [None] + b)[if i < |a| then i else i + 1];
    }
  }

  /** Every other node sees each slot, given or not. */
  lemma OthersSeeSlots<T>(m: Meaning<T>, node: Node, env: Env<T>, j: nat, args: seq<Option<T>>)
    requires !node.op.Elementwise? && Available(env, node.inputs) && |args| == |node.inputs|
    requires forall i :: 0 <= i < |args| ==> args[i] == if node.inputs[i].Some? then Some(env[node.inputs[i].value]) else None
    ensures NodeResult(m, node, env, j) == m.general(node.op, args, j)
  {
    assert Lookup(env, node.inputs) == args;
  }

  /** All results of a node. */
  ghost function Results<T>(m: Meaning<T>, node: Node, env: Env<T>): (r: nat -> T)
    requires Available(env, node.inputs)
    ensures forall j: nat :: r(j) == NodeResult(m, node, env, j)
  {
    (j: nat) => NodeResult(m, node, env, j)
  }

  ghost function Bind<T>(env: Env<T>, outputs: seq<ValueId>, result: nat -> T): (r: Env<T>)
    ensures forall v: ValueId :: v in r <==> v in env || v in outputs
    ensures forall v: ValueId :: v in env && v !in outputs ==> r[v] == env[v]
  {
    if outputs == [] then env
    else
      var n := |outputs| - 1;
      assert outputs == outputs[..n] + [outputs[n]];
      Bind(env, outputs[..n], result)[outputs[n] := result(n)]
  }

  lemma {:induction false} BindAt<T>(env: Env<T>, outputs: seq<ValueId>, result: nat -> T, j: nat)
    requires j < |outputs| && forall i, k :: 0 <= i < k < |outputs| ==> outputs[i] != outputs[k]
    ensures Bind(env, outputs, result)[outputs[j]] == result(j)
    decreases |outputs|
  {
    var n := |outputs| - 1;
    if j < n {
      BindAt(env, outputs[..n], result, j);
    }
  }

  // ----- node by node -----

  ghost function NodeRun<T>(g: Graph, m: Meaning<T>, order: seq<NodeId>, p: nat, env0: Env<T>): Option<Env<T>>
    requires p <= |order| && forall i :: 0 <= i < |order| ==> g.Live(order[i])
  {
    if p == 0 then Some(env0)
    else
      assert g.Live(order[p - 1]);
      var node := g.nodes[order[p - 1]];
      match NodeRun(g, m, order, p - 1, env0)
      case None => None
      case Some(env) =>
        if Available(env, node.inputs) then Some(Bind(env, node.outputs, Results(m, node, env))) else None
  }

  /** The starting values: everything computing nodes read that none of them defines, and
      nothing that one of them defines. */
  ghost predicate Supplies<T>(g: Graph, env0: Env<T>) {
    && (forall n: NodeId, v: ValueId :: g.Computes(n) && g.nodes[n].Reads(v) ==> v in env0 || Computed(g, v))
    && (forall v: ValueId :: v in env0 ==> !Computed(g, v))
  }

  ghost predicate Agrees<T>(env: Env<T>, env': Env<T>) {
    forall v: ValueId :: v in env ==> v in env' && env'[v] == env[v]
  }

  /** In `env` node n has all inputs, and its outputs are its results on them. */
  ghost predicate NodeSolved<T>(g: Graph, m: Meaning<T>, n: NodeId, env: Env<T>)
    requires g.Live(n)
  {
    && Available(env, g.nodes[n].inputs)
    && forall j :: 0 <= j < |g.nodes[n].outputs| ==>
         g.nodes[n].outputs[j] in env && env[g.nodes[n].outputs[j]] == NodeResult(m, g.nodes[n], env, j)
  }

  ghost predicate DefinedBefore(g: Graph, order: seq<NodeId>, p: nat, v: ValueId)
    requires p <= |order| && forall i :: 0 <= i < |order| ==> g.Live(order[i])
  {
    exists q :: 0 <= q < p && g.Defines(order[q], v)
  }

  lemma SameResult<T>(m: Meaning<T>, node: Node, env: Env<T>, env': Env<T>, j: nat)
    requires Available(env, node.inputs) && Agrees(env, env')
    ensures Available(env', node.inputs) && NodeResult(m, node, env', j) == NodeResult(m, node, env, j)
  {
    if node.op.Elementwise? {
      PresentAvailable(env, node.inputs);
      PresentAvailable(env', node.inputs);
      assert Values(env', Present(node.inputs)) == Values(env, Present(node.inputs));
    } else {
      assert Lookup(env', node.inputs) == Lookup(env, node.inputs);
    }
  }

  /** The node-by-node run never misses an input, and its result solves every node. */
  lemma {:induction false} NodeRunSolves<T>(g: Graph, m: Meaning<T>, order: seq<NodeId>, p: nat, env0: Env<T>)
    returns (env: Env<T>)
    requires g.SingleDefinition() && IsTopological(g, order) && Supplies(g, env0) && p <= |order|
    requires forall i :: 0 <= i < |order| ==> g.Computes(order[i])
    ensures NodeRun(g, m, order, p, env0) == Some(env)
    ensures Agrees(env0, env)
    ensures forall v: ValueId :: v in env <==> v in env0 || DefinedBefore(g, order, p, v)
    ensures forall q :: 0 <= q < p ==> NodeSolved(g, m, order[q], env)
  {
    hide NodeSolved, Supplies;
    if p == 0 {
      env := env0;
    } else {
      var before := NodeRunSolves(g, m, order, p - 1, env0);
      env := SolveStep(g, m, order, p, env0, before);
    }
  }

  /** Running one more node. */
  lemma SolveStep<T>(g: Graph, m: Meaning<T>, order: seq<NodeId>, p: nat, env0: Env<T>, before: Env<T>)
    returns (env: Env<T>)
    requires g.SingleDefinition() && IsTopological(g, order) && Supplies(g, env0) && 0 < p <= |order|
    requires forall i :: 0 <= i < |order| ==> g.Computes(order[i])
    requires Agrees(env0, before)
    requires forall v: ValueId :: v in before <==> v in env0 || DefinedBefore(g, order, p - 1, v)
    requires forall q :: 0 <= q < p - 1 ==> NodeSolved(g, m, order[q], before)
    ensures Available(before, g.nodes[order[p - 1]].inputs)
    ensures var node := g.nodes[order[p - 1]]; env == Bind(before, node.outputs, Results(m, node, before))
    ensures Agrees(env0, env)
    ensures forall v: ValueId :: v in env <==> v in env0 || DefinedBefore(g, order, p, v)
    ensures forall q :: 0 <= q < p ==> NodeSolved(g, m, order[q], env)
  {
    var node := g.nodes[order[p - 1]];
    InputsDefined(g, order, p - 1, env0, before);
    hide Supplies, Results, NodeResult, NodeSolved, IsTopological, Graph.SingleDefinition, DefinedBefore, Agrees, Bind, Available;
    env := Bind(before, node.outputs, Results(m, node, before));
    OutputsAreNew(g, order, p - 1, env0, before);
    BindAgrees(env0, before, node.outputs, Results(m, node, before));
    BoundDomain(g, order, p, env0, before, env);
    NewlySolved(g, m, order[p - 1], before);
    StillSolved(g, m, order, p, before, env);
  }

  lemma BindAgrees<T>(env0: Env<T>, before: Env<T>, outputs: seq<ValueId>, result: nat -> T)
    requires Agrees(env0, before) && forall v: ValueId :: v in outputs ==> v !in before
    ensures Agrees(before, Bind(before, outputs, result)) && Agrees(env0, Bind(before, outputs, result))
  {
    hide Bind;
  }

  lemma BoundDomain<T>(g: Graph, order: seq<NodeId>, p: nat, env0: Env<T>, before: Env<T>, env: Env<T>)
    requires 0 < p <= |order| && forall i :: 0 <= i < |order| ==> g.Live(order[i])
    requires g.Live(order[p - 1])
    requires forall v: ValueId :: v in before <==> v in env0 || DefinedBefore(g, order, p - 1, v)
    requires forall v: ValueId :: v in env <==> v in before || v in g.nodes[order[p - 1]].outputs
    ensures forall v: ValueId :: v in env <==> v in env0 || DefinedBefore(g, order, p, v)
  {
    DefinedStep(g, order, p);
    hide DefinedBefore;
  }

  lemma StillSolved<T>(g: Graph, m: Meaning<T>, order: seq<NodeId>, p: nat, before: Env<T>, env: Env<T>)
    requires 0 < p <= |order| && (forall i :: 0 <= i < |order| ==> g.Live(order[i])) && Agrees(before, env)
    requires forall q :: 0 <= q < p - 1 ==> NodeSolved(g, m, order[q], before)
    requires NodeSolved(g, m, order[p - 1], env)
    ensures forall q :: 0 <= q < p ==> NodeSolved(g, m, order[q], env)
  {
    hide NodeSolved, Agrees;
    forall q | 0 <= q < p - 1 ensures NodeSolved(g, m, order[q], env) {
      StaysSolved(g, m, order[q], before, env);
    }
  }

  lemma DefinedStep(g: Graph, order: seq<NodeId>, p: nat)
    requires 0 < p <= |order| && forall i :: 0 <= i < |order| ==> g.Live(order[i])
    ensures g.Live(order[p - 1])
    ensures forall v: ValueId :: DefinedBefore(g, order, p, v) <==>
              DefinedBefore(g, order, p - 1, v) || v in g.nodes[order[p - 1]].outputs
  {
    forall v: ValueId
      ensures DefinedBefore(g, order, p, v) <==> DefinedBefore(g, order, p - 1, v) || g.Defines(order[p - 1], v)
    {
    }
  }

  lemma NewlySolved<T>(g: Graph, m: Meaning<T>, n: NodeId, before: Env<T>)
    requires g.Live(n) && g.SingleDefinition() && Available(before, g.nodes[n].inputs)
    requires forall v: ValueId :: v in g.nodes[n].outputs ==> v !in before
    ensures NodeSolved(g, m, n, Bind(before, g.nodes[n].outputs, Results(m, g.nodes[n], before)))
  {
    var node := g.nodes[n];
    var result := Results(m, node, before);
    var env := Bind(before, node.outputs, result);
    forall j | 0 <= j < |node.outputs|
      ensures node.outputs[j] in env && env[node.outputs[j]] == NodeResult(m, node, env, j)
    {
      BindAt(before, node.outputs, result, j);
      SameResult(m, node, before, env, j);
    }
  }

  lemma StaysSolved<T>(g: Graph, m: Meaning<T>, n: NodeId, env: Env<T>, env': Env<T>)
    requires g.Live(n) && NodeSolved(g, m, n, env) && Agrees(env, env')
    ensures NodeSolved(g, m, n, env')
  {
    var node := g.nodes[n];
    forall j | 0 <= j < |node.outputs|
      ensures node.outputs[j] in env' && env'[node.outputs[j]] == NodeResult(m, node, env', j)
    {
      SameResult(m, node, env, env', j);
    }
  }

  lemma InputsDefined<T>(g: Graph, order: seq<NodeId>, p: nat, env0: Env<T>, env: Env<T>)
    requires IsTopological(g, order) && Supplies(g, env0) && p < |order|
    requires forall i :: 0 <= i < |order| ==> g.Computes(order[i])
    requires forall v: ValueId :: v in env <==> v in env0 || DefinedBefore(g, order, p, v)
    ensures Available(env, g.nodes[order[p]].inputs)
  {
    var node := g.nodes[order[p]];
    forall i | 0 <= i < |node.inputs| && node.inputs[i].Some? ensures node.inputs[i].value in env {
      var v := node.inputs[i].value;
      assert node.Reads(v);
      if v !in env0 {
        var q := Definer(g, order, p, v);
      }
    }
  }

  /** Where the definition of a value read at position p stands. */
  lemma Definer(g: Graph, order: seq<NodeId>, p: nat, v: ValueId) returns (q: nat)
    requires IsTopological(g, order) && p < |order| && g.Computes(order[p])
    requires g.nodes[order[p]].Reads(v) && Computed(g, v)
    ensures q < p && g.Computes(order[q]) && v in g.nodes[order[q]].outputs
  {
    var d: NodeId :| g.Computes(d) && v in g.nodes[d].outputs;
    assert d in order;
    q :| 0 <= q < |order| && order[q] == d;
    assert g.Edge(order[q], order[p]);
  }

  lemma OutputsAreNew<T>(g: Graph, order: seq<NodeId>, p: nat, env0: Env<T>, env: Env<T>)
    requires g.SingleDefinition() && IsTopological(g, order) && Supplies(g, env0) && p < |order|
    requires forall i :: 0 <= i < |order| ==> g.Computes(order[i])
    requires forall v: ValueId :: v in env <==> v in env0 || DefinedBefore(g, order, p, v)
    ensures forall v: ValueId :: v in g.nodes[order[p]].outputs ==> v !in env
  {
    forall v: ValueId | v in g.nodes[order[p]].outputs ensures v !in env {
      assert Computed(g, v);
      assert g.Defines(order[p], v);
      forall q | 0 <= q < p ensures !g.Defines(order[q], v) {
        assert order[q] != order[p];
      }
    }
  }
}
