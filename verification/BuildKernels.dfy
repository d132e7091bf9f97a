/** The whole kernel builder, and what it promises. */
module BuildKernels {
  import opened GraphModel
  import opened Options
  import opened Kernels
  import opened KernelsBuilder
  import opened KernelMeaning
  import opened KernelFusion

  /** `kernels` come from grouping and emitting along some topological order. */
  ghost predicate IsFusionOf(g: Graph, kernels: seq<Kernel>, order: seq<NodeId>, c: seq<NodeId>, r: Classes) {
    Setting(g, c, r, order) && Emitted(g, c, r, order, |order|, kernels)
  }

  ghost predicate IsFused(g: Graph, kernels: seq<Kernel>) {
    exists order: seq<NodeId>, c: seq<NodeId>, r: Classes :: IsFusionOf(g, kernels, order, c, r)
  }

  method Build(g: Graph, used: UseIndex) returns (kernels: seq<Kernel>)
    requires g.WellFormed() && IndexesUses(g, used)
    ensures IsFused(g, kernels)
  {
    var b := NewBuilder(g);
    ghost var order, c := b.nodes.ordered, b.elementwise.ordered;
    ghost var r;
    kernels, r := Run(b, g, used);
    assert forall i :: 0 <= i < |order| ==> order[i] in order;
    assert IsFusionOf(g, kernels, order, c, r);
  }

  /** The kernels built for a graph compute what the graph means: run in order they never miss
      an input, every value they hand out is that of a solution of all the graph's nodes, and
      every computed value that an output marker reads is among them. */
  lemma BuiltKernelsAreRight<T>(g: Graph, m: Meaning<T>, kernels: seq<Kernel>, env0: Env<T>)
    returns (solution: Env<T>, byKernels: Env<T>)
    requires IsFused(g, kernels) && Supplies(g, env0)
    ensures KernelRun(m, kernels, env0) == Some(byKernels)
    ensures Agrees(byKernels, solution) && Agrees(env0, byKernels)
    ensures forall n: NodeId :: g.Computes(n) ==> NodeSolved(g, m, n, solution)
    ensures forall n: NodeId, v: ValueId :: g.Live(n) && !g.Computes(n) && g.nodes[n].Reads(v) && Computed(g, v) ==>
              v in byKernels
  {
    var order: seq<NodeId>, c: seq<NodeId>, r: Classes :| IsFusionOf(g, kernels, order, c, r);
    solution, byKernels := FusionPreservesMeaning(g, m, c, r, order, kernels, env0);
  }
}
