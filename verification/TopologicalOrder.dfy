/** Depth-first topological order of the nodes that compute. */
module TopologicalOrder {
  import opened Options
  import opened GraphModel

  // ----- the adjacency map -----

  /** `defined` names the node that defines each value. */
  ghost predicate DefinedUpTo(g: Graph, defined: map<ValueId, NodeId>, bound: nat) {
    && (forall v: ValueId :: v in defined ==> defined[v] < bound && g.Defines(defined[v], v))
    && (forall n: NodeId, v: ValueId :: n < bound && g.Defines(n, v) ==> v in defined)
  }

  method DefinedBy(g: Graph) returns (defined: map<ValueId, NodeId>)
    ensures DefinedUpTo(g, defined, |g.nodes|)
  {
    defined := map[];
    for id := 0 to |g.nodes|
      invariant DefinedUpTo(g, defined, id)
    {
      if !g.nodes[id].deleted {
        var outputs := g.nodes[id].outputs;
        for i := 0 to |outputs|
          invariant forall v: ValueId :: v in defined ==> defined[v] < id + 1 && g.Defines(defined[v], v)
          invariant forall n: NodeId, v: ValueId :: n < id && g.Defines(n, v) ==> v in defined
          invariant forall j :: 0 <= j < i ==> outputs[j] in defined
        {
          defined := defined[outputs[i] := id];
        }
      }
    }
  }

  /** Row a of `adj` lists readers of a's outputs only. */
  ghost predicate Successors(g: Graph, adj: map<NodeId, seq<NodeId>>) {
    forall a: NodeId, b: NodeId :: Listed(adj, a, b) ==> g.Edge(a, b)
  }

  predicate Listed(adj: map<NodeId, seq<NodeId>>, a: NodeId, b: NodeId) {
    a in adj && b in adj[a]
  }

  ghost predicate AllEdges(g: Graph, adj: map<NodeId, seq<NodeId>>) {
    forall a: NodeId, b: NodeId :: g.Edge(a, b) <==> Listed(adj, a, b)
  }

  ghost predicate SlotListed(g: Graph, adj: map<NodeId, seq<NodeId>>, defined: map<ValueId, NodeId>, b: NodeId, i: nat)
    requires g.Live(b) && i < |g.nodes[b].inputs|
  {
    g.nodes[b].inputs[i].Some? && g.nodes[b].inputs[i].value in defined ==>
      Listed(adj, defined[g.nodes[b].inputs[i].value], b)
  }

  function Insert(adj: map<NodeId, seq<NodeId>>, a: NodeId, b: NodeId): (r: map<NodeId, seq<NodeId>>)
    ensures forall a': NodeId, b': NodeId :: Listed(r, a', b') <==> Listed(adj, a', b') || (a' == a && b' == b)
  {
    var row := if a in adj then adj[a] else [];
    var row' := if b in row then row else row + [b];
    adj[a := row']
  }

  method Adjacency(g: Graph, defined: map<ValueId, NodeId>) returns (adj: map<NodeId, seq<NodeId>>)
    requires g.Closed() && g.SingleDefinition() && DefinedUpTo(g, defined, |g.nodes|)
    ensures AllEdges(g, adj)
  {
    adj := map[];
    for id := 0 to |g.nodes|
      invariant Successors(g, adj)
      invariant forall b: NodeId, i: nat :: b < id && g.Live(b) && i < |g.nodes[b].inputs| ==> SlotListed(g, adj, defined, b, i)
    {
      if !g.nodes[id].deleted {
        var inputs := g.nodes[id].inputs;
        for i := 0 to |inputs|
          invariant Successors(g, adj)
          invariant forall b: NodeId, j: nat :: b < id && g.Live(b) && j < |g.nodes[b].inputs| ==> SlotListed(g, adj, defined, b, j)
          invariant forall j: nat :: j < i ==> SlotListed(g, adj, defined, id, j)
        {
          if inputs[i].Some? {
            var v := inputs[i].value;
            assert g.Uses(id, v);
            if v in defined {
              assert g.Edge(defined[v], id);
              ghost var before := adj;
              adj := Insert(adj, defined[v], id);
              forall b: NodeId, j: nat | g.Live(b) && j < |g.nodes[b].inputs| && SlotListed(g, before, defined, b, j)
                ensures SlotListed(g, adj, defined, b, j) {}
            } else {
              // The source asserts here that v has an initializer.
              assert v in g.initializers;
            }
          }
        }
      }
    }
    forall a: NodeId, b: NodeId | g.Edge(a, b) ensures Listed(adj, a, b) {
      var v: ValueId :| v in g.nodes[a].outputs && g.nodes[b].Reads(v);
      assert g.Defines(a, v) && g.Defines(defined[v], v);
      var i: nat :| i < |g.nodes[b].inputs| && g.nodes[b].inputs[i] == Some(v);
      assert SlotListed(g, adj, defined, b, i);
    }
  }

  // ----- the depth-first search -----

  /** Position-wise order: no listed node reads an output of a node listed after it, and
      (in post-order) every computing reader of a listed node is listed before it. */
  ghost predicate ReadersFirst(g: Graph, res: seq<NodeId>) {
    forall i, b: NodeId :: 0 <= i < |res| && g.Edge(res[i], b) && g.Computes(b) ==> b in res[..i]
  }

  ghost predicate NoRepeats(res: seq<NodeId>) {
    forall i, j :: 0 <= i < j < |res| ==> res[i] != res[j]
  }

  /** `done` are the nodes whose search is complete. */
  ghost predicate SearchState(g: Graph, res: seq<NodeId>, done: set<NodeId>) {
    && NoRepeats(res)
    && ReadersFirst(g, res)
    && (forall n: NodeId :: n in res <==> n in done && g.Computes(n))
    && (forall a: NodeId, b: NodeId :: a in done && g.Edge(a, b) ==> b in done)
    && (forall n: NodeId :: n in done ==> g.Live(n))
  }

  ghost function LiveSet(g: Graph): set<NodeId> {
    set n: NodeId | 0 <= n < |g.nodes| && g.Live(n)
  }

  /** The nodes being searched, none of which the search of `node` can reach again. */
  ghost predicate Open(rank: seq<nat>, visited: set<NodeId>, done: set<NodeId>, node: NodeId)
    requires node < |rank|
  {
    done <= visited && forall n: NodeId :: n in visited && n !in done ==> n < |rank| && rank[n] < rank[node]
  }

  method Dfs(g: Graph, node: NodeId, adj: map<NodeId, seq<NodeId>>, res: seq<NodeId>, visited: set<NodeId>,
             ghost done: set<NodeId>, ghost rank: seq<nat>)
    returns (res': seq<NodeId>, visited': set<NodeId>, ghost done': set<NodeId>)
    requires AllEdges(g, adj) && g.Ranked(rank) && g.Live(node)
    requires SearchState(g, res, done) && visited <= LiveSet(g) && Open(rank, visited, done, node)
    ensures SearchState(g, res', done') && visited' <= LiveSet(g)
    ensures node in done' && done <= done' && visited <= visited'
    ensures done' <= visited' && visited' - done' == visited - done
    decreases LiveSet(g) - visited, 0
  {
    if node in visited {
      return res, visited, done;
    }
    visited' := visited + {node};
    res', done' := res, done;
    if node in adj {
      res', visited', done' := DfsAll(g, node, adj[node], adj, res', visited', done', rank);
    }
    forall b: NodeId | g.Edge(node, b) ensures b in done' {
      assert Listed(adj, node, b);
    }
    assert node !in done' by {
      assert node in (visited + {node}) - done;
    }
    Finish(g, node, res', done');
    OpenAgain(visited, done, visited', done', node);
    done' := done' + {node};
    if !g.nodes[node].IsDummy() {
      res' := res' + [node];
    }
  }

  /** The loop over one node's neighbours. */
  method DfsAll(g: Graph, node: NodeId, neighbors: seq<NodeId>, adj: map<NodeId, seq<NodeId>>, res: seq<NodeId>,
                visited: set<NodeId>, ghost done: set<NodeId>, ghost rank: seq<nat>)
    returns (res': seq<NodeId>, visited': set<NodeId>, ghost done': set<NodeId>)
    requires AllEdges(g, adj) && g.Ranked(rank) && g.Live(node)
    requires forall b: NodeId :: b in neighbors ==> g.Edge(node, b)
    requires SearchState(g, res, done) && visited <= LiveSet(g) && Open(rank, visited - {node}, done, node)
    requires node in visited && node !in done
    ensures SearchState(g, res', done') && visited' <= LiveSet(g)
    ensures done <= done' && visited <= visited' && forall b: NodeId :: b in neighbors ==> b in done'
    ensures done' <= visited' && visited' - done' == visited - done
    decreases LiveSet(g) - visited, 1
  {
    res', visited', done' := res, visited, done;
    for i := 0 to |neighbors|
      invariant SearchState(g, res', done') && visited' <= LiveSet(g)
      invariant done <= done' <= visited' && visited <= visited' && visited' - done' == visited - done
      invariant forall j :: 0 <= j < i ==> neighbors[j] in done'
    {
      assert g.Edge(node, neighbors[i]);
      forall n: NodeId | n in visited' && n !in done' ensures n < |rank| && rank[n] < rank[neighbors[i]] {
        assert n in visited' - done';
      }
      res', visited', done' := Dfs(g, neighbors[i], adj, res', visited', done', rank);
    }
  }

  lemma OpenAgain(visited: set<NodeId>, done: set<NodeId>, visited': set<NodeId>, done': set<NodeId>, node: NodeId)
    requires node !in visited && visited' - done' == visited + {node} - done && done <= visited
    ensures visited' - (done' + {node}) == visited - done
  {
    forall n: NodeId ensures n in visited' - (done' + {node}) <==> n in visited - done {
      assert n in visited' - done' <==> n in visited + {node} - done;
    }
  }

  lemma Finish(g: Graph, node: NodeId, res: seq<NodeId>, done: set<NodeId>)
    requires SearchState(g, res, done) && g.Live(node) && node !in done
    requires forall b: NodeId :: g.Edge(node, b) ==> b in done
    ensures var res' := if g.nodes[node].IsDummy() then res else res + [node];
            SearchState(g, res', done + {node})
  {
    if !g.nodes[node].IsDummy() {
      var res' := res + [node];
      assert forall i :: 0 <= i < |res| ==> res[i] in res;
      forall i, b: NodeId | 0 <= i < |res'| && g.Edge(res'[i], b) && g.Computes(b) ensures b in res'[..i] {
        if i < |res| {
          assert res'[..i] == res[..i];
        } else {
          assert res'[..i] == res;
        }
      }
    }
  }

  /** `order` lists every computing node exactly once, producers before their readers. */
  ghost predicate IsTopological(g: Graph, order: seq<NodeId>) {
    && NoRepeats(order)
    && (forall n: NodeId :: n in order <==> g.Computes(n))
    && (forall i, j :: 0 <= i < |order| && 0 <= j < |order| && g.Edge(order[i], order[j]) ==> i < j)
  }

  /** Node a stands ahead of node b. */
  ghost predicate Before(order: seq<NodeId>, a: NodeId, b: NodeId) {
    exists i, j :: 0 <= i < j < |order| && order[i] == a && order[j] == b
  }

  /** In terms of the nodes: exactly the live ones that are no markers, each once, and what
      defines a value comes ahead of what reads it. */
  lemma TopologicalMeans(g: Graph, order: seq<NodeId>, n: NodeId, i: nat, j: nat, v: ValueId)
    requires IsTopological(g, order) && i < |order| && j < |order|
    ensures n in order <==>
              n < |g.nodes| && !g.nodes[n].deleted && !g.nodes[n].op.Input? && !g.nodes[n].op.Output? && !g.nodes[n].op.SessionState?
    ensures order[i] == order[j] ==> i == j
    ensures order[i] < |g.nodes| && order[j] < |g.nodes|
    ensures v in g.nodes[order[i]].outputs && Some(v) in g.nodes[order[j]].inputs ==> i < j
  {
    assert order[i] in order && order[j] in order;
    if v in g.nodes[order[i]].outputs && Some(v) in g.nodes[order[j]].inputs {
      assert g.nodes[order[j]].Reads(v);
      assert g.Edge(order[i], order[j]);
    }
  }

  method SimpleTopologicalOrder(g: Graph) returns (order: seq<NodeId>)
    requires g.WellFormed()
    ensures IsTopological(g, order)
  {
    var defined := DefinedBy(g);
    var adj := Adjacency(g, defined);
    var res: seq<NodeId>, visited: set<NodeId> := [], {};
    ghost var rank: seq<nat> :| g.Ranked(rank);
    for id := 0 to |g.nodes|
      invariant SearchState(g, res, visited) && visited <= LiveSet(g)
      invariant forall n: NodeId :: 0 <= n < id && g.Computes(n) ==> n in visited
    {
      if !g.nodes[id].deleted && !g.nodes[id].IsDummy() {
        if id !in visited {
          ghost var done;
          ghost var before := visited;
          res, visited, done := Dfs(g, id, adj, res, visited, visited, rank);
          assert visited - done == before - before == {};
          assert visited == done + (visited - done);
        }
      }
    }
    order := Reverse(res);
    ReversedOrder(g, res, visited);
  }

  lemma ReversedOrder(g: Graph, res: seq<NodeId>, done: set<NodeId>)
    requires SearchState(g, res, done) && forall n: NodeId :: g.Computes(n) ==> n in done
    ensures IsTopological(g, Reverse(res))
  {
    var order := Reverse(res);
    ReversePlaces(res);
    hide Reverse, ReadersFirst;
    forall i, j | 0 <= i < j < |order| ensures order[i] != order[j] {
      ReversedPlace(res, i);
      ReversedPlace(res, j);
    }
    forall i, j | 0 <= i < |order| && 0 <= j < |order| && g.Edge(order[i], order[j]) ensures i < j {
      ReversedPlace(res, i);
      ReversedPlace(res, j);
      assert order[j] in order;
      ReaderIsEarlier(g, res, |res| - 1 - i, |res| - 1 - j);
    }
  }

  lemma ReaderIsEarlier(g: Graph, res: seq<NodeId>, i: nat, j: nat)
    requires NoRepeats(res) && ReadersFirst(g, res) && i < |res| && j < |res| && g.Edge(res[i], res[j]) && g.Computes(res[j])
    ensures j < i
  {
    assert res[j] in res[..i];
    var k :| 0 <= k < i && res[k] == res[j];
  }

  lemma ReversedPlace(s: seq<NodeId>, i: nat)
    requires i < |s|
    ensures Reverse(s)[i] == s[|s| - 1 - i]
  {
    ReversePlaces(s);
    hide Reverse;
    assert Reverse(s)[|s| - 1 - (|s| - 1 - i)] == s[|s| - 1 - i];
  }

  function Reverse(s: seq<NodeId>): (r: seq<NodeId>)
    ensures |r| == |s|
  {
    if s == [] then [] else Reverse(s[1..]) + [s[0]]
  }

  lemma {:induction false} ReversePlaces(s: seq<NodeId>)
    ensures forall i :: 0 <= i < |s| ==> Reverse(s)[|s| - 1 - i] == s[i]
    ensures forall n: NodeId :: n in Reverse(s) <==> n in s
  {
    if s != [] {
      ReversePlaces(s[1..]);
      forall i | 0 <= i < |s| ensures Reverse(s)[|s| - 1 - i] == s[i] {
        if 0 < i { assert s[i] == s[1..][i - 1]; }
      }
      assert s == [s[0]] + s[1..];
    }
  }
}
