/** Every well-formed graph can be evaluated, from any given values. */
module Evaluation {
  import opened Options
  import opened GraphModel
  import opened ViewChains
  import opened ViewMeaning

  /** One above the rank of the node that computes v. */
  ghost function Level(g: Graph, rank: seq<nat>, v: ValueId): nat
    requires g.Ranked(rank)
  {
    if Computed(g, v) then
      var d: NodeId :| g.Computes(d) && g.Defines(d, v);
      rank[d] + 1
    else 0
  }

  lemma LevelOfInput(g: Graph, rank: seq<nat>, d: NodeId, i: nat, v: ValueId)
    requires g.Ranked(rank) && g.ReadsAt(d, i, v)
    ensures Level(g, rank, v) <= rank[d]
  {
    forall e: NodeId | g.Computes(e) && g.Defines(e, v) ensures rank[e] < rank[d] {
      assert g.nodes[d].Reads(v) && g.Edge(e, d);
    }
  }

  /** The value of v, computed from the values given. */
  ghost function ValueOf<T(!new)>(s: Snapshot, m: Meaning<T>, given: Env<T>, rank: seq<nat>, v: ValueId): T
    requires s.graph.SingleDefinition() && s.graph.Ranked(rank)
    decreases Level(s.graph, rank, v)
  {
    if Computed(s.graph, v) then
      var d: NodeId :| s.graph.Computes(d) && s.graph.Defines(d, v);
      var node := s.graph.nodes[d];
      var j: nat :| j < |node.outputs| && node.outputs[j] == v;
      assert Level(s.graph, rank, v) == rank[d] + 1;
      if IsView(node) then
        LevelOfInput(s.graph, rank, d, 0, node.inputs[0].value);
        ViewResult(s, m, node, ValueOf(s, m, given, rank, node.inputs[0].value))
      else
        m.general(node.op, seq(|node.inputs|, i requires 0 <= i < |node.inputs| =>
          if node.inputs[i].Some? then
            LevelOfInput(s.graph, rank, d, i, node.inputs[i].value);
            Some(ValueOf(s, m, given, rank, node.inputs[i].value))
          else None), j)
    else given(v)
  }

  /** Every graph has an evaluation from given values. */
  lemma EvaluationExists<T(!new)>(s: Snapshot, m: Meaning<T>, given: Env<T>) returns (env: Env<T>)
    requires s.graph.SingleDefinition() && s.graph.Acyclic()
    ensures Solves(s, m, env) && forall v: ValueId :: !Computed(s.graph, v) ==> env(v) == given(v)
  {
    var rank: seq<nat> :| s.graph.Ranked(rank);
    env := (v: ValueId) => ValueOf(s, m, given, rank, v);
    forall n: NodeId | s.graph.Computes(n) ensures NodeHolds(s, m, env, s.graph.nodes[n]) {
      var node := s.graph.nodes[n];
      forall j: nat | j < |node.outputs|
        ensures env(node.outputs[j]) == if IsView(node) then ViewResult(s, m, node, env(node.inputs[0].value))
                                        else m.general(node.op, Arguments(env, node.inputs), j)
      {
        ResultHolds(s, m, given, rank, n, j, env);
      }
    }
  }

  lemma ResultHolds<T(!new)>(s: Snapshot, m: Meaning<T>, given: Env<T>, rank: seq<nat>, n: NodeId, j: nat, env: Env<T>)
    requires s.graph.SingleDefinition() && s.graph.Ranked(rank) && s.graph.Computes(n) && j < |s.graph.nodes[n].outputs|
    requires forall v: ValueId :: env(v) == ValueOf(s, m, given, rank, v)
    ensures var node := s.graph.nodes[n];
            env(node.outputs[j]) == if IsView(node) then ViewResult(s, m, node, env(node.inputs[0].value))
                                    else m.general(node.op, Arguments(env, node.inputs), j)
  {
    var node := s.graph.nodes[n];
    var v := node.outputs[j];
    assert s.graph.Defines(n, v);
    if !IsView(node) {
      var arguments := seq(|node.inputs|, i requires 0 <= i < |node.inputs| =>
        if node.inputs[i].Some? then Some(ValueOf(s, m, given, rank, node.inputs[i].value)) else None);
      assert Arguments(env, node.inputs) == arguments;
    }
  }
}
