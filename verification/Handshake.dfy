/** The hub's side of connecting: accepts one stream per spoke and files it under its rank. */
module Handshake {
  import opened Options
  import opened Wire

  /** The stream's hello names a rank the world has. */
  predicate InRange(stream: seq<byte>, worldSize: nat) {
    ReadHello(stream).Some? && 1 <= ReadHello(stream).value < worldSize
  }

  /** The first n arrivals name ranks of the world, no rank twice. */
  ghost predicate Admissible(arrivals: seq<seq<byte>>, worldSize: nat, n: nat)
    requires n <= |arrivals|
  {
    && (forall j :: 0 <= j < n ==> InRange(arrivals[j], worldSize))
    && forall i, j :: 0 <= i < j < n ==> ReadHello(arrivals[i]) != ReadHello(arrivals[j])
  }

  lemma AdmissibleMeans(arrivals: seq<seq<byte>>, worldSize: nat, n: nat)
    requires n <= |arrivals|
    ensures Admissible(arrivals, worldSize, n) <==>
              && (forall j :: 0 <= j < n ==> ReadHello(arrivals[j]).Some? && 1 <= ReadHello(arrivals[j]).value < worldSize)
              && (forall i, j :: 0 <= i < j < n ==> ReadHello(arrivals[i]) != ReadHello(arrivals[j]))
  {
    hide ReadHello;
    if Admissible(arrivals, worldSize, n) {
      forall j | 0 <= j < n ensures InRange(arrivals[j], worldSize) {
      }
    }
  }

  /** Slot i holds the arrival that named rank i + 1, among the first n, and is empty if there
      is none. */
  ghost predicate Filed(arrivals: seq<seq<byte>>, peers: seq<Option<nat>>, n: nat)
    requires n <= |arrivals|
  {
    && (forall i: nat :: i < |peers| && peers[i].Some? ==>
          peers[i].value < n && ReadHello(arrivals[peers[i].value]) == Some(i + 1))
    && (forall j: nat :: j < n ==> FiledAt(arrivals, peers, j))
  }

  ghost predicate FiledAt(arrivals: seq<seq<byte>>, peers: seq<Option<nat>>, j: nat)
    requires j < |arrivals|
  {
    match ReadHello(arrivals[j])
    case Some(rank) => 1 <= rank <= |peers| && peers[rank - 1] == Some(j)
    case None => false
  }

  ghost function UpTo(n: nat): (s: set<nat>)
    ensures |s| == n && forall i: nat :: i in s <==> 1 <= i <= n
  {
    if n == 0 then {} else UpTo(n - 1) + {n}
  }

  ghost function Members(ranks: seq<nat>): (s: set<nat>)
    ensures forall x :: x in s <==> x in ranks
    ensures (forall i, j :: 0 <= i < j < |ranks| ==> ranks[i] != ranks[j]) ==> |s| == |ranks|
  {
    if ranks == [] then {}
    else
      var n := |ranks| - 1;
      assert ranks == ranks[..n] + [ranks[n]];
      Members(ranks[..n]) + {ranks[n]}
  }

  /** As many distinct ranks as the world has spokes name every spoke. */
  lemma Pigeonhole(ranks: seq<nat>, rank: nat)
    requires forall j :: 0 <= j < |ranks| ==> 1 <= ranks[j] <= |ranks|
    requires forall i, j :: 0 <= i < j < |ranks| ==> ranks[i] != ranks[j]
    requires 1 <= rank <= |ranks|
    ensures rank in ranks
  {
    var named, all := Members(ranks), UpTo(|ranks|);
    assert named <= all;
    var rest := all - named;
    assert all == named + rest && named !! rest;
    assert |rest| == 0 && rank in all;
  }

  /** An admissible handshake leaves no slot empty. */
  lemma NoSlotEmpty(arrivals: seq<seq<byte>>, worldSize: nat, peers: seq<Option<nat>>)
    requires worldSize > 0 && |peers| == worldSize - 1 <= |arrivals|
    requires Admissible(arrivals, worldSize, worldSize - 1) && Filed(arrivals, peers, worldSize - 1)
    ensures forall i :: 0 <= i < |peers| ==> peers[i].Some?
  {
    hide ReadHello;
    assert forall j: nat :: j < worldSize - 1 ==> InRange(arrivals[j], worldSize);
    var ranks: seq<nat> := seq(worldSize - 1, j requires 0 <= j < worldSize - 1 => ReadHello(arrivals[j]).value);
    forall i: nat | i < |peers| ensures peers[i].Some? {
      Pigeonhole(ranks, i + 1);
      var j: nat :| j < |ranks| && ranks[j] == i + 1;
      assert FiledAt(arrivals, peers, j);
    }
  }

  /** Accepts the streams in the order they arrive.  The handshake succeeds exactly when the
      arrivals name each spoke once; then entry i is the stream to rank i + 1. */
  method Accept(arrivals: seq<seq<byte>>, worldSize: nat) returns (r: Option<seq<nat>>)
    requires worldSize <= |arrivals| + 1
    ensures r.Some? <==> worldSize > 0 && Admissible(arrivals, worldSize, worldSize - 1)
    ensures r.Some? ==> |r.value| == worldSize - 1
    ensures r.Some? ==>
      forall i: nat :: i < |r.value| ==> r.value[i] < worldSize - 1 && ReadHello(arrivals[r.value[i]]) == Some(i + 1)
  {
    if worldSize == 0 {
      return None;
    }
    var peers := new Option<nat>[worldSize - 1](_ => None);
    for n := 0 to worldSize - 1
      invariant Admissible(arrivals, worldSize, n) && Filed(arrivals, peers[..], n)
    {
      hide ReadHello;
      if !InRange(arrivals[n], worldSize) {
        return None;
      }
      var slot := ReadHello(arrivals[n]).value - 1;
      if peers[slot].Some? {
        assert ReadHello(arrivals[peers[slot].value]) == ReadHello(arrivals[n]);
        return None;
      }
      ghost var before := peers[..];
      peers[slot] := Some(n);
      FileNext(arrivals, worldSize, before, n);
      assert peers[..] == before[slot := Some(n)];
    }
    NoSlotEmpty(arrivals, worldSize, peers[..]);
    r := Some(seq(worldSize - 1, i requires 0 <= i < peers.Length && peers[i].Some? reads peers => peers[i].value));
  }

  lemma FileNext(arrivals: seq<seq<byte>>, worldSize: nat, peers: seq<Option<nat>>, n: nat)
    requires worldSize > 0 && |peers| == worldSize - 1 && n < |arrivals|
    requires Admissible(arrivals, worldSize, n) && Filed(arrivals, peers, n) && InRange(arrivals[n], worldSize)
    requires peers[ReadHello(arrivals[n]).value - 1].None?
    ensures Admissible(arrivals, worldSize, n + 1)
    ensures Filed(arrivals, peers[ReadHello(arrivals[n]).value - 1 := Some(n)], n + 1)
  {
    hide ReadHello;
    var peers' := peers[ReadHello(arrivals[n]).value - 1 := Some(n)];
    forall j: nat | j < n ensures FiledAt(arrivals, peers', j) && ReadHello(arrivals[j]) != ReadHello(arrivals[n]) {
      assert FiledAt(arrivals, peers, j);
    }
  }
}
