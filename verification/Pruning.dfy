/** What deleting the nodes that the outputs do not reach keeps of the graph. */
module Pruning {
  import opened Options
  import opened GraphModel
  import opened UseDefIndex
  import opened GraphIndex
  import opened DeadNodes
  import opened ViewChains

  ghost predicate Prunes(s: Snapshot, t: Snapshot, outputs: seq<NodeId>) {
    PrunedTo(s.graph, outputs, t.graph) && t.values == s.values
  }

  /** The outputs are the live output markers, and no other marker reads anything. */
  ghost predicate Marks(g: Graph, outputs: seq<NodeId>) {
    MarkersPlain(g, outputs) && forall n :: n in outputs ==> g.Live(n) && g.nodes[n].op.Output?
  }

  /** Node by node: what is not reached is deleted, unless it is a marker; all else stays. */
  lemma PrunedNode(s: Snapshot, t: Snapshot, outputs: seq<NodeId>, n: NodeId)
    requires Prunes(s, t, outputs) && n < |s.graph.nodes|
    ensures |t.graph.nodes| == |s.graph.nodes| && t.graph.initializers == s.graph.initializers && t.values == s.values
    ensures var node := s.graph.nodes[n];
            t.graph.nodes[n] ==
              if Reached(s.graph, outputs, n) || node.op.Input? || node.op.Output? || node.op.SessionState? then node
              else node.(deleted := true)
  {
    hide Reached;
    var node := s.graph.nodes[n];
    assert node.deleted ==> node.(deleted := true) == node;
  }

  lemma StaysLive(g: Graph, outputs: seq<NodeId>, g': Graph, n: NodeId)
    requires PrunedTo(g, outputs, g')
    ensures g'.Live(n) ==> g.Live(n) && g'.nodes[n] == g.nodes[n]
    ensures g.Live(n) && (g.nodes[n].IsDummy() || Reached(g, outputs, n)) ==> g'.Live(n) && g'.nodes[n] == g.nodes[n]
    ensures g'.Computes(n) ==> g.Computes(n) && Reached(g, outputs, n)
  {
  }

  /** What a kept node reads is still defined. */
  lemma ProducerStays(g: Graph, outputs: seq<NodeId>, g': Graph, n: NodeId, i: nat, v: ValueId, d: NodeId)
    requires PrunedTo(g, outputs, g') && MarkersPlain(g, outputs)
    requires g'.ReadsAt(n, i, v) && v !in g.initializers && g.Defines(d, v)
    ensures g'.Defines(d, v)
  {
    StaysLive(g, outputs, g', n);
    StaysLive(g, outputs, g', d);
    if g.nodes[n].IsDummy() {
      assert g.nodes[n].op.Output?;
      OutputsAreReached(g, outputs, n);
    }
    assert FedAt(g, d, n, i);
    FeederIsReached(g, outputs, d, n);
  }

  lemma PrunedIsClosed(g: Graph, outputs: seq<NodeId>, g': Graph)
    requires PrunedTo(g, outputs, g') && MarkersPlain(g, outputs) && g.Closed()
    ensures g'.Closed()
  {
    forall n: NodeId, v: ValueId | g'.Uses(n, v) && v !in g'.initializers ensures exists d: NodeId :: g'.Defines(d, v) {
      var i: nat :| i < |g'.nodes[n].inputs| && g'.nodes[n].inputs[i] == Some(v);
      StaysLive(g, outputs, g', n);
      assert g'.ReadsAt(n, i, v) && g.Uses(n, v);
      var d: NodeId :| g.Defines(d, v);
      ProducerStays(g, outputs, g', n, i, v, d);
    }
  }

  lemma PrunedIsRanked(g: Graph, outputs: seq<NodeId>, g': Graph, rank: seq<nat>)
    requires PrunedTo(g, outputs, g') && g.Ranked(rank)
    ensures g'.Ranked(rank)
  {
    forall a: NodeId, b: NodeId | g'.Edge(a, b) ensures rank[a] < rank[b] {
      StaysLive(g, outputs, g', a);
      StaysLive(g, outputs, g', b);
      assert g.Edge(a, b);
    }
  }

  /** Deletion keeps the graph closed, singly defined and acyclic. */
  lemma PruningKeepsGood(s: Snapshot, t: Snapshot, outputs: seq<NodeId>)
    requires Good(s) && MarkersPlain(s.graph, outputs) && Prunes(s, t, outputs)
    ensures Good(t)
  {
    var rank: seq<nat> :| s.graph.Ranked(rank);
    PrunedIsRanked(s.graph, outputs, t.graph, rank);
    PrunedIsClosed(s.graph, outputs, t.graph);
    SameDefinitions(s.graph, t.graph);
    forall n: NodeId, i: nat, v: ValueId | t.graph.ReadsAt(n, i, v) ensures v < |t.values| {
      assert s.graph.ReadsAt(n, i, v);
    }
    forall at: Place, v: ValueId | DefinesAt(t.graph, at, v) ensures v < |t.values| {
      assert DefinesAt(s.graph, at, v);
    }
  }

  lemma PruningKeepsMarks(g: Graph, outputs: seq<NodeId>, g': Graph)
    requires PrunedTo(g, outputs, g') && Marks(g, outputs)
    ensures Marks(g', outputs)
  {
    forall n | n in outputs ensures g'.Live(n) && g'.nodes[n].op.Output? {
      OutputsAreReached(g, outputs, n);
      StaysLive(g, outputs, g', n);
    }
    forall n: NodeId | g'.Live(n) && g'.nodes[n].IsDummy() ensures g.Live(n) && g'.nodes[n] == g.nodes[n] {
      StaysLive(g, outputs, g', n);
    }
  }

  lemma PrunedIsNamed(g: Graph, outputs: seq<NodeId>, g': Graph)
    requires PrunedTo(g, outputs, g') && OutputsNamed(g)
    ensures OutputsNamed(g')
  {
  }

  /** Replacing a chain's end keeps the markers as they are but for what outputs read. */
  lemma StepKeepsMarks(s: Snapshot, b: Bundle, outputs: seq<NodeId>)
    requires Marks(s.graph, outputs) && Bundles(s, b) && b.source != b.v
    ensures Marks(Bundled(s, b).graph, outputs)
  {
    var t := Bundled(s, b).graph;
    NewNodeStays(s, b);
    assert !t.nodes[|s.graph.nodes|].IsDummy();
    hide Bundled, Bundles;
    forall n: NodeId | t.Live(n) && t.nodes[n].IsDummy()
      ensures if t.nodes[n].op.Output? then n in outputs else forall i :: 0 <= i < |t.nodes[n].inputs| ==> t.nodes[n].inputs[i].None?
    {
      BundledNode(s, b, n);
      assert s.graph.Live(n) && s.graph.nodes[n].IsDummy();
    }
    forall n | n in outputs ensures t.Live(n) && t.nodes[n].op.Output? {
      BundledNode(s, b, n);
    }
  }
}
