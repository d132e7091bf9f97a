/** The recency-rank table of the streaming key/value cache: `sink` slots that keep the first
    tokens and a ring of `window` slots for the latest ones. */
module KvPosition {
  import opened Arithmetic

  function RingStart(sink: nat, window: nat, pos: nat): (r: nat)
    requires window > 0
    ensures r < window
  {
    if pos < sink + window then 0 else (pos - sink) % window
  }

  function ActiveInRing(sink: nat, window: nat, pos: nat): nat {
    if pos < sink then 0 else if pos - sink < window then pos - sink else window
  }

  /** The rank the table gives a slot when it is built for the stream position pos. */
  function Rank(sink: nat, window: nat, pos: nat, slot: nat): nat
    requires window > 0
  {
    if sink <= slot < sink + window then
      var age := (slot - sink + window - RingStart(sink, window, pos)) % window;
      if age < ActiveInRing(sink, window, pos) then sink + age else slot
    else slot
  }

  /** Fills the table slot by slot. */
  method StreamingKvPosition(sink: nat, window: nat, pos: nat, maxSeqLen: nat) returns (out: array<nat>)
    requires 0 < window && sink + window <= maxSeqLen
    ensures out.Length == maxSeqLen && forall slot :: 0 <= slot < maxSeqLen ==> out[slot] == Rank(sink, window, pos, slot)
    ensures forall slot :: 0 <= slot < maxSeqLen ==> out[slot] < maxSeqLen
    ensures forall a, b :: 0 <= a < b < maxSeqLen ==> out[a] != out[b]
    ensures fresh(out)
  {
    var maxActive := sink + window;
    var ringStart := if pos < maxActive then 0 else (pos - sink) % window;
    var written := if pos < sink then 0 else pos - sink;
    var activeInRing := if written < window then written else window;
    out := new nat[maxSeqLen];
    for slot := 0 to maxSeqLen
      invariant forall s :: 0 <= s < slot ==> out[s] == Rank(sink, window, pos, s)
    {
      if slot < sink {
        out[slot] := slot;
      } else if slot < maxActive {
        var age := (slot - sink + window - ringStart) % window;
        out[slot] := if age < activeInRing then sink + age else slot;
      } else {
        out[slot] := slot;
      }
    }
    TableIsAPermutation(sink, window, pos, out[..]);
  }

  /** The slot a token is written to. */
  function SlotOf(sink: nat, window: nat, token: nat): nat
    requires window > 0
  {
    if token < sink then token else sink + (token - sink) % window
  }

  /** After n tokens are written, the ones the cache still holds. */
  predicate Retained(sink: nat, window: nat, n: nat, token: nat) {
    token < n && (token < sink || n <= token + window)
  }

  // ----- the ring -----

  /** The distance around the ring, for a slot and a start in it. */
  lemma RingAge(window: nat, rel: nat, start: nat)
    requires rel < window && start < window
    ensures (rel + window - start) % window == if start <= rel then rel - start else rel + window - start
  {
    if start <= rel {
      DivModUnique(rel + window - start, window, 1, rel - start);
    } else {
      DivModUnique(rel + window - start, window, 0, rel + window - start);
    }
  }

  lemma PositiveQuotient(q: nat, window: nat, r: nat, x: nat)
    requires x == q * window + r && r < x
    ensures q > 0
  {
  }

  /** Going `back` positions back from x is going back around the ring. */
  lemma RingBack(window: nat, x: nat, back: nat)
    requires window > 0 && back < window && back <= x
    ensures (x - back) % window == if back <= x % window then x % window - back else x % window + window - back
  {
    var q, r := x / window, x % window;
    assert x == q * window + r;
    if back <= r {
      DivModUnique(x - back, window, q, r - back);
    } else {
      PositiveQuotient(q, window, r, x);
      Distribute(q - 1, 1, window);
      DivModUnique(x - back, window, q - 1, r + window - back);
    }
  }

  /** Until the ring is full, every slot keeps its own position. */
  lemma RankBeforeFull(sink: nat, window: nat, pos: nat, slot: nat)
    requires window > 0 && pos < sink + window
    ensures Rank(sink, window, pos, slot) == slot
  {
    if sink <= slot < sink + window {
      RingAge(window, slot - sink, 0);
    }
  }

  /** Slots outside the ring keep their own position. */
  lemma RankOutside(sink: nat, window: nat, pos: nat, slot: nat)
    requires window > 0 && (slot < sink || sink + window <= slot)
    ensures Rank(sink, window, pos, slot) == slot
  {
  }

  /** Once the ring is full, a ring slot's rank is its distance around the ring. */
  lemma RankWhenFull(sink: nat, window: nat, pos: nat, slot: nat)
    requires window > 0 && sink + window <= pos && sink <= slot < sink + window
    ensures var start := (pos - sink) % window;
            Rank(sink, window, pos, slot) == if start <= slot - sink then slot - start else slot + window - start
  {
    RingAge(window, slot - sink, (pos - sink) % window);
  }

  /** The table is a permutation: the ranks are in range and no two slots share one. */
  lemma RanksAreAPermutation(sink: nat, window: nat, pos: nat, maxSeqLen: nat, a: nat, b: nat)
    requires 0 < window && sink + window <= maxSeqLen && a <= b < maxSeqLen
    ensures Rank(sink, window, pos, a) < maxSeqLen && Rank(sink, window, pos, b) < maxSeqLen
    ensures a < b ==> Rank(sink, window, pos, a) != Rank(sink, window, pos, b)
  {
    if pos < sink + window {
      RankBeforeFull(sink, window, pos, a);
      RankBeforeFull(sink, window, pos, b);
    } else {
      if sink <= a < sink + window {
        RankWhenFull(sink, window, pos, a);
      }
      if sink <= b < sink + window {
        RankWhenFull(sink, window, pos, b);
      }
    }
  }

  lemma TableIsAPermutation(sink: nat, window: nat, pos: nat, table: seq<nat>)
    requires 0 < window && sink + window <= |table|
    requires forall slot :: 0 <= slot < |table| ==> table[slot] == Rank(sink, window, pos, slot)
    ensures forall slot :: 0 <= slot < |table| ==> table[slot] < |table|
    ensures forall a, b :: 0 <= a < b < |table| ==> table[a] != table[b]
  {
    hide Rank;
    forall a, b | 0 <= a <= b < |table| ensures table[a] < |table| && (a < b ==> table[a] != table[b]) {
      RanksAreAPermutation(sink, window, pos, |table|, a, b);
    }
  }

  /** The rank of a retained token in the table built after n tokens are written: its place
      among the retained tokens. */
  lemma RankOfToken(sink: nat, window: nat, n: nat, token: nat)
    requires window > 0 && Retained(sink, window, n, token)
    ensures Rank(sink, window, n, SlotOf(sink, window, token)) ==
            if token < sink || n < sink + window then token else sink + (token + window - n)
  {
    var slot := SlotOf(sink, window, token);
    if token >= sink {
      if n < sink + window {
        RankBeforeFull(sink, window, n, slot);
        DivModUnique(token - sink, window, 0, token - sink);
      } else {
        RankWhenFull(sink, window, n, slot);
        var x, back := n - sink, n - token;
        if back < window {
          RingBack(window, x, back);
        } else {
          var q, r := x / window, x % window;
          assert x == q * window + r;
          PositiveQuotient(q, window, r, x);
          Distribute(q - 1, 1, window);
          DivModUnique(x - window, window, q - 1, r);
        }
      }
    }
  }

  /** The ranks of the table for `pos` follow the order of the tokens retained after n are
      written. */
  ghost predicate FollowsTokens(sink: nat, window: nat, pos: nat, n: nat)
    requires window > 0
  {
    forall s: nat, t: nat :: s < t && Retained(sink, window, n, s) && Retained(sink, window, n, t) ==> InOrder(sink, window, pos, s, t)
  }

  ghost predicate InOrder(sink: nat, window: nat, pos: nat, s: nat, t: nat)
    requires window > 0
  {
    Rank(sink, window, pos, SlotOf(sink, window, s)) < Rank(sink, window, pos, SlotOf(sink, window, t))
  }

  /** The table built for the position after the write, as prefill builds it, ranks the retained
      tokens in their order. */
  lemma PostWriteTableFollowsTokens(sink: nat, window: nat, n: nat)
    requires window > 0
    ensures FollowsTokens(sink, window, n, n)
  {
    forall s: nat, t: nat | s < t && Retained(sink, window, n, s) && Retained(sink, window, n, t)
      ensures InOrder(sink, window, n, s, t)
    {
      RankOfToken(sink, window, n, s);
      RankOfToken(sink, window, n, t);
    }
  }

  /** The rank the table for the position before the write of token n gives a token retained
      after it: the new token is ranked as the one it replaces. */
  lemma PreWriteRank(sink: nat, window: nat, n: nat, token: nat)
    requires window > 0 && Retained(sink, window, n + 1, token)
    ensures Rank(sink, window, n, SlotOf(sink, window, token)) ==
            if token < sink || n < sink + window then token
            else if token == n then sink else sink + (token + window - n)
  {
    if token < n {
      RankOfToken(sink, window, n, token);
    } else if n < sink + window {
      RankBeforeFull(sink, window, n, SlotOf(sink, window, n));
      if sink <= n {
        DivModUnique(n - sink, window, 0, n - sink);
      }
    } else {
      RankWhenFull(sink, window, n, SlotOf(sink, window, n));
    }
  }

  /** The table for the position before the write, as decode builds it, ranks the retained
      tokens in order exactly while the ring is not full, or if the ring is a single slot. */
  lemma PreWriteTableFollowsTokens(sink: nat, window: nat, n: nat)
    requires window > 0
    ensures FollowsTokens(sink, window, n, n + 1) <==> n < sink + window || window == 1
  {
    if n < sink + window || window == 1 {
      forall s: nat, t: nat | s < t && Retained(sink, window, n + 1, s) && Retained(sink, window, n + 1, t)
        ensures InOrder(sink, window, n, s, t)
      {
        PreWriteRank(sink, window, n, s);
        PreWriteRank(sink, window, n, t);
      }
    } else {
      PreWriteRank(sink, window, n, n - 1);
      PreWriteRank(sink, window, n, n);
      assert !InOrder(sink, window, n, n - 1, n);
    }
  }

  /** With one sink slot and a ring of two, the decode table after three tokens ranks the token
      being written before the one that precedes it. */
  lemma PreWriteTableOutOfOrder()
    ensures Retained(1, 2, 4, 2) && Retained(1, 2, 4, 3)
    ensures Rank(1, 2, 3, SlotOf(1, 2, 2)) == 2 && Rank(1, 2, 3, SlotOf(1, 2, 3)) == 1
    ensures !FollowsTokens(1, 2, 3, 4)
  {
    PreWriteRank(1, 2, 3, 2);
    PreWriteRank(1, 2, 3, 3);
    assert !InOrder(1, 2, 3, 2, 3);
  }
}
