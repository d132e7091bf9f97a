/** The operator graph: an arena of nodes that read and define values. */
module GraphModel {
  import opened Options

  type ValueId = nat
  type NodeId = nat

  datatype View = ReshapeView(before: seq<nat>, after: seq<nat>) | TransposeView(perm: Option<seq<nat>>) |
                  BroadcastView(before: seq<nat>, after: seq<nat>)

  /** The operators the modelled passes tell apart; every other operator is `Elementwise` or
      `Opaque` with a name. */
  datatype Operator =
    | Input(v: ValueId) | Output(v: ValueId) | SessionState(v: ValueId)
    | Reshape | Transpose(perm: Option<seq<nat>>)
    | Reinterpret(ops: seq<View>) | Contiguous(ops: seq<View>)
    | Elementwise(name: string) | Opaque(name: string)

  datatype Node = Node(inputs: seq<Option<ValueId>>, outputs: seq<ValueId>, op: Operator, deleted: bool) {
    predicate IsDummy() {
      op.Input? || op.Output? || op.SessionState?
    }

    predicate Reads(v: ValueId) {
      Some(v) in inputs
    }
  }

  datatype Graph = Graph(nodes: seq<Node>, initializers: set<ValueId>) {
    predicate Live(n: NodeId) {
      n < |nodes| && !nodes[n].deleted
    }

    /** A node the engine computes: live and not an input or output marker. */
    predicate Computes(n: NodeId) {
      Live(n) && !nodes[n].IsDummy()
    }

    predicate Defines(n: NodeId, v: ValueId) {
      Live(n) && v in nodes[n].outputs
    }

    predicate Uses(n: NodeId, v: ValueId) {
      Live(n) && nodes[n].Reads(v)
    }

    predicate ReadsAt(n: NodeId, i: nat, v: ValueId) {
      Live(n) && i < |nodes[n].inputs| && nodes[n].inputs[i] == Some(v)
    }

    /** Node b reads a value that node a defines. */
    ghost predicate Edge(a: NodeId, b: NodeId) {
      Live(a) && Live(b) && exists v: ValueId :: v in nodes[a].outputs && nodes[b].Reads(v)
    }

    /** Every value a live node reads is defined by a live node or has an initializer. */
    ghost predicate Closed() {
      forall n: NodeId, v: ValueId :: Uses(n, v) ==> v in initializers || exists d: NodeId :: Defines(d, v)
    }

    /** No value is defined twice. */
    ghost predicate SingleDefinition() {
      && (forall a: NodeId, b: NodeId, v: ValueId :: Defines(a, v) && Defines(b, v) ==> a == b)
      && (forall a: NodeId, i, j :: Live(a) && 0 <= i < j < |nodes[a].outputs| ==> nodes[a].outputs[i] != nodes[a].outputs[j])
    }

    ghost predicate Ranked(rank: seq<nat>) {
      |rank| == |nodes| && forall a: NodeId, b: NodeId :: Edge(a, b) ==> rank[a] < rank[b]
    }

    ghost predicate Acyclic() {
      exists rank: seq<nat> :: Ranked(rank)
    }

    ghost predicate WellFormed() {
      Closed() && SingleDefinition() && Acyclic()
    }
  }

  /** Some computing node defines v. */
  ghost predicate Computed(g: Graph, v: ValueId) {
    exists d: NodeId :: g.Computes(d) && v in g.nodes[d].outputs
  }

  type UseIndex = map<ValueId, set<(NodeId, nat)>>

  /** `used` holds, for every value that is read at all, exactly the places that read it. */
  ghost predicate IndexesUses(g: Graph, used: UseIndex) {
    && (forall v: ValueId :: v in used ==> used[v] != {})
    && (forall v: ValueId, n: NodeId, i: nat :: IndexedAt(used, n, i, v) <==> g.ReadsAt(n, i, v))
  }

  predicate IndexedAt(used: UseIndex, n: NodeId, i: nat, v: ValueId) {
    v in used && (n, i) in used[v]
  }
}
