/** What a generation session is meant to compute: greedy decoding of a causal model over the
    tokens it has seen. */
module Generation {
  import opened Options
  import opened Arithmetic

  type Token = nat

  /** A causal model: the cache entry and the logits at a position depend on the entries before
      it and on the token there. */
  datatype Model<!E(!new), !L(!new)> = Model(entry: (seq<E>, Token) -> E, logits: (seq<E>, Token) -> L, argmax: L -> Token) {
    /** The cache after the tokens h are fed one at a time. */
    ghost function Entries(h: seq<Token>): (r: seq<E>)
      ensures |r| == |h|
      decreases |h|
    {
      if h == [] then []
      else
        var before := Entries(h[..|h| - 1]);
        before + [entry(before, h[|h| - 1])]
    }

    /** The logits at the last of the tokens h. */
    ghost function Row(h: seq<Token>): L
      requires h != []
    {
      logits(Entries(h[..|h| - 1]), h[|h| - 1])
    }

    ghost function Next(h: seq<Token>): Token
      requires h != []
    {
      argmax(Row(h))
    }

    lemma Feed(h: seq<Token>, t: Token)
      ensures Entries(h + [t]) == Entries(h) + [entry(Entries(h), t)]
      ensures Row(h + [t]) == logits(Entries(h), t)
      ensures Next(h + [t]) == argmax(logits(Entries(h), t))
    {
      assert (h + [t])[..|h|] == h;
    }

    /** Later tokens leave earlier entries alone. */
    lemma {:induction false} EntriesOfPrefix(h: seq<Token>, n: nat)
      requires n <= |h|
      ensures Entries(h)[..n] == Entries(h[..n])
      decreases |h|
    {
      if n == |h| {
        assert h[..n] == h;
      } else {
        EntriesOfPrefix(h[..|h| - 1], n);
        assert h[..|h| - 1][..n] == h[..n];
      }
    }
  }

  /** The stop strings of a call: whether any are given, and whether the decoded text of some
      tokens contains one. */
  datatype Stops = Stops(any: bool, contains: seq<Token> -> bool) {
    predicate Hit(ids: seq<Token>) {
      any && contains(ids)
    }
  }

  /** The longest prefix without a stop string that popping tokens one by one reaches. */
  function Truncated(stops: Stops, ids: seq<Token>): (r: seq<Token>)
    ensures r <= ids && (r != [] ==> !stops.Hit(r))
    ensures forall n :: |r| < n <= |ids| ==> stops.Hit(ids[..n])
    decreases |ids|
  {
    assert ids[..|ids|] == ids;
    if ids == [] || !stops.Hit(ids) then ids
    else
      var shorter := ids[..|ids| - 1];
      assert forall n :: 0 <= n <= |shorter| ==> shorter[..n] == ids[..n];
      Truncated(stops, shorter)
  }

  datatype Limits = Limits(maxSeqLen: nat, eos: Token, prefillLen: Option<nat>) {
    predicate Valid() {
      prefillLen.Some? ==> prefillLen.value > 0
    }

    /** The cache positions that feeding n prompt tokens writes: whole chunks if there is a
        prefill model. */
    function Needed(n: nat): nat
      requires Valid()
    {
      match prefillLen
      case Some(p) => (n + p - 1) / p * p
      case None => n
    }

    /** Whole chunks, as few as hold n tokens; without a prefill model one position a token. */
    lemma NeededIsLeast(n: nat, chunks: nat)
      requires Valid()
      ensures prefillLen == None ==> Needed(n) == n
      ensures prefillLen.Some? ==> Needed(n) % prefillLen.value == 0 && n <= Needed(n)
      ensures prefillLen.Some? && n <= chunks * prefillLen.value ==> Needed(n) <= chunks * prefillLen.value
    {
      if prefillLen.Some? {
        LeastMultiple(n, prefillLen.value, (n + prefillLen.value - 1) / prefillLen.value, chunks);
      }
    }

    /** One full chunk more, and the last chunk is a whole one too. */
    lemma NeededStep(n: nat, p: nat)
      requires Valid() && prefillLen == Some(p) && n > 0
      ensures n <= p ==> Needed(n) == p
      ensures n > p ==> Needed(n) == Needed(n - p) + p
      ensures n <= Needed(n)
    {
      var q, r := (n - 1) / p, (n - 1) % p;
      assert n - 1 == q * p + r;
      Distribute(q, 1, p);
      DivModUnique(n + p - 1, p, q + 1, r);
      if n <= p {
        DivModUnique(n - 1, p, 0, n - 1);
      } else {
        DivModUnique(n - p + p - 1, p, q, r);
      }
    }

    lemma NeededCovers(n: nat)
      requires Valid()
      ensures n <= Needed(n)
    {
      if n > 0 && prefillLen.Some? {
        NeededStep(n, prefillLen.value);
      }
    }
  }

  lemma LeastMultiple(n: nat, p: nat, q: nat, chunks: nat)
    requires p > 0 && q == (n + p - 1) / p
    ensures q * p % p == 0 && n <= q * p && (n <= chunks * p ==> q * p <= chunks * p)
  {
    DivModUnique(q * p, p, q, 0);
    assert n + p - 1 == q * p + (n + p - 1) % p;
    if chunks < q {
      MulMonotone(chunks + 1, q, p);
      Distribute(chunks, 1, p);
    } else {
      MulMonotone(q, chunks, p);
    }
  }

  /** The tokens generated after `base` once `ids` are there: at most k more, while the cache has
      room, up to and including the first that ends the text or completes a stop string. */
  ghost function Decoded<E(!new), L(!new)>(m: Model<E, L>, lim: Limits, stops: Stops, base: seq<Token>,
                      ids: seq<Token>, k: nat): (r: seq<Token>)
    requires base != []
    ensures ids <= r && |r| <= |ids| + k
    decreases k
  {
    if k == 0 || lim.maxSeqLen < |base| + |ids| then ids
    else
      var ids' := ids + [m.Next(base + ids)];
      if Ends(lim, stops, ids') then ids' else Decoded(m, lim, stops, base, ids', k - 1)
  }

  predicate Ends(lim: Limits, stops: Stops, ids: seq<Token>)
    requires ids != []
  {
    ids[|ids| - 1] == lim.eos || stops.Hit(ids)
  }

  /** The reply to a prompt. */
  ghost function Answer<E(!new), L(!new)>(m: Model<E, L>, lim: Limits, stops: Stops, base: seq<Token>,
                      maxNew: nat): (r: seq<Token>)
    requires base != []
  {
    var ids := Decoded(m, lim, stops, base, [], maxNew);
    if ids != [] && Ends(lim, stops, ids) then Truncated(stops, ids) else ids
  }

  lemma AnswerFromDecoded<E(!new), L(!new)>(m: Model<E, L>, lim: Limits, stops: Stops, base: seq<Token>, maxNew: nat)
    requires base != []
    ensures var ids := Decoded(m, lim, stops, base, [], maxNew);
            Answer(m, lim, stops, base, maxNew) == if ids != [] && Ends(lim, stops, ids) then Truncated(stops, ids) else ids
  {
  }

  ghost predicate Greedy<E(!new), L(!new)>(m: Model<E, L>, base: seq<Token>, ids: seq<Token>)
    requires base != []
  {
    forall i :: 0 <= i < |ids| ==> ids[i] == m.Next(base + ids[..i])
  }

  lemma GreedyStep<E(!new), L(!new)>(m: Model<E, L>, base: seq<Token>, ids: seq<Token>)
    requires base != [] && Greedy(m, base, ids)
    ensures Greedy(m, base, ids + [m.Next(base + ids)])
  {
    hide Model.Next;
    var ids' := ids + [m.Next(base + ids)];
    forall i | 0 <= i < |ids'| ensures ids'[i] == m.Next(base + ids'[..i]) {
      if i == |ids| {
        assert ids'[..i] == ids;
      } else {
        assert ids'[..i] == ids[..i];
      }
    }
  }

  lemma {:induction false} DecodedIsGreedy<E(!new), L(!new)>(m: Model<E, L>, lim: Limits, stops: Stops,
                      base: seq<Token>, ids: seq<Token>, k: nat)
    requires base != [] && Greedy(m, base, ids)
    ensures Greedy(m, base, Decoded(m, lim, stops, base, ids, k))
    decreases k
  {
    hide Model.Next, Greedy, Ends;
    if k > 0 && |base| + |ids| <= lim.maxSeqLen {
      GreedyStep(m, base, ids);
      var ids' := ids + [m.Next(base + ids)];
      if !Ends(lim, stops, ids') {
        DecodedIsGreedy(m, lim, stops, base, ids', k - 1);
      }
    }
  }

  lemma {:induction false} DecodedStops<E(!new), L(!new)>(m: Model<E, L>, lim: Limits, stops: Stops,
                      base: seq<Token>, ids: seq<Token>, k: nat)
    requires base != [] && (ids != [] ==> !Ends(lim, stops, ids))
    ensures var r := Decoded(m, lim, stops, base, ids, k);
            && (forall n :: |ids| < n < |r| ==> !Ends(lim, stops, r[..n]))
            && (|r| < |ids| + k ==> (r != [] && Ends(lim, stops, r)) || lim.maxSeqLen < |base| + |r|)
            && (|ids| < |r| ==> |base| + |r| <= lim.maxSeqLen + 1)
    decreases k
  {
    if k > 0 && |base| + |ids| <= lim.maxSeqLen {
      var ids' := ids + [m.Next(base + ids)];
      if !Ends(lim, stops, ids') {
        DecodedStops(m, lim, stops, base, ids', k - 1);
        var r := Decoded(m, lim, stops, base, ids', k - 1);
        forall n | |ids| < n < |r| ensures !Ends(lim, stops, r[..n]) {
          if n == |ids'| {
            assert r[..n] == ids';
          }
        }
      }
    }
  }

  /** Every reply is the model's greedy continuation of what it has seen, no longer than asked
      for, with no stop string in it. */
  lemma AnswerIsGreedy<E(!new), L(!new)>(m: Model<E, L>, lim: Limits, stops: Stops, base: seq<Token>, maxNew: nat)
    requires base != []
    ensures var r := Answer(m, lim, stops, base, maxNew);
            Greedy(m, base, r) && |r| <= maxNew && (r != [] ==> !stops.Hit(r))
  {
    var ids := Decoded(m, lim, stops, base, [], maxNew);
    DecodedIsGreedy(m, lim, stops, base, [], maxNew);
    var r := Answer(m, lim, stops, base, maxNew);
    assert r <= ids;
    forall i | 0 <= i < |r| ensures r[i] == m.Next(base + r[..i]) {
      assert r[..i] == ids[..i];
    }
  }

  /** No token of a reply but the last ends the text, and no part of it holds a stop string. */
  ghost predicate Unfinished(lim: Limits, stops: Stops, ids: seq<Token>) {
    && (forall i :: 0 <= i < |ids| - 1 ==> ids[i] != lim.eos)
    && (forall n :: 0 < n <= |ids| ==> !stops.Hit(ids[..n]))
  }

  /** Why no further token follows: as many as asked for, the text has ended, the cache is full,
      or the next token would complete a stop string. */
  ghost predicate Complete<E(!new), L(!new)>(m: Model<E, L>, lim: Limits, stops: Stops, base: seq<Token>,
                      maxNew: nat, ids: seq<Token>)
    requires base != []
  {
    || |ids| == maxNew
    || (ids != [] && ids[|ids| - 1] == lim.eos)
    || lim.maxSeqLen < |base| + |ids|
    || stops.Hit(ids + [m.Next(base + ids)])
  }

  /** A reply goes on as long as it can and no longer. */
  lemma AnswerIsMaximal<E(!new), L(!new)>(m: Model<E, L>, lim: Limits, stops: Stops, base: seq<Token>, maxNew: nat)
    requires base != []
    ensures var r := Answer(m, lim, stops, base, maxNew);
            && Unfinished(lim, stops, r) && Complete(m, lim, stops, base, maxNew, r)
            && (r != [] ==> |base| + |r| <= lim.maxSeqLen + 1)
  {
    DecodedStops(m, lim, stops, base, [], maxNew);
    DecodedIsGreedy(m, lim, stops, base, [], maxNew);
    var ids := Decoded(m, lim, stops, base, [], maxNew);
    AnswerFromDecoded(m, lim, stops, base, maxNew);
    hide Answer, Decoded, Model.Next, Truncated, Unfinished, Complete, Ends, Greedy;
    if ids == [] || !Ends(lim, stops, ids) {
      NotCutIsComplete(m, lim, stops, base, maxNew, ids);
    } else {
      CutIsComplete(m, lim, stops, base, maxNew, ids);
    }
  }

  lemma NotCutIsComplete<E(!new), L(!new)>(m: Model<E, L>, lim: Limits, stops: Stops, base: seq<Token>, maxNew: nat, ids: seq<Token>)
    requires base != [] && forall n :: 0 < n < |ids| ==> !Ends(lim, stops, ids[..n])
    requires ids != [] ==> !Ends(lim, stops, ids)
    requires |ids| == maxNew || lim.maxSeqLen < |base| + |ids|
    ensures Unfinished(lim, stops, ids) && Complete(m, lim, stops, base, maxNew, ids)
  {
    hide Model.Next;
    NotCut(lim, stops, ids);
  }

  lemma CutIsComplete<E(!new), L(!new)>(m: Model<E, L>, lim: Limits, stops: Stops, base: seq<Token>, maxNew: nat, ids: seq<Token>)
    requires base != [] && ids != [] && Ends(lim, stops, ids) && Greedy(m, base, ids)
    requires forall n :: 0 < n < |ids| ==> !Ends(lim, stops, ids[..n])
    ensures var r := Truncated(stops, ids); Unfinished(lim, stops, r) && Complete(m, lim, stops, base, maxNew, r)
  {
    CutOnce(lim, stops, ids);
    CutCompletes(m, lim, stops, base, maxNew, ids);
  }

  lemma CutCompletes<E(!new), L(!new)>(m: Model<E, L>, lim: Limits, stops: Stops, base: seq<Token>, maxNew: nat, ids: seq<Token>)
    requires base != [] && ids != [] && Greedy(m, base, ids)
    ensures stops.Hit(ids) ==> Complete(m, lim, stops, base, maxNew, ids[..|ids| - 1])
    ensures ids[|ids| - 1] == lim.eos ==> Complete(m, lim, stops, base, maxNew, ids)
  {
    GreedyAt(m, base, ids, |ids| - 1);
    hide Model.Next, Greedy;
    assert ids == ids[..|ids| - 1] + [ids[|ids| - 1]];
  }

  lemma NotCut(lim: Limits, stops: Stops, ids: seq<Token>)
    requires forall n :: 0 < n < |ids| ==> !Ends(lim, stops, ids[..n])
    requires ids != [] ==> !stops.Hit(ids)
    ensures Unfinished(lim, stops, ids)
  {
    forall i | 0 <= i < |ids| - 1 ensures ids[i] != lim.eos {
      assert !Ends(lim, stops, ids[..i + 1]);
    }
    forall n | 0 < n <= |ids| ensures !stops.Hit(ids[..n]) {
      if n == |ids| {
        assert ids[..n] == ids;
      } else {
        assert !Ends(lim, stops, ids[..n]);
      }
    }
  }

  /** A reply that has ended loses its last token if that completes a stop string, and nothing
      else: else it ends the text. */
  lemma CutOnce(lim: Limits, stops: Stops, ids: seq<Token>)
    requires ids != [] && Ends(lim, stops, ids)
    requires forall n :: 0 < n < |ids| ==> !Ends(lim, stops, ids[..n])
    ensures Truncated(stops, ids) == if stops.Hit(ids) then ids[..|ids| - 1] else ids
    ensures !stops.Hit(ids) ==> ids[|ids| - 1] == lim.eos
    ensures Unfinished(lim, stops, Truncated(stops, ids))
  {
    var shorter := ids[..|ids| - 1];
    if shorter != [] {
      assert !Ends(lim, stops, shorter);
    }
    assert Truncated(stops, shorter) == shorter;
    if stops.Hit(ids) {
      forall n | 0 < n < |shorter| ensures !Ends(lim, stops, shorter[..n]) {
        assert shorter[..n] == ids[..n];
      }
      NotCut(lim, stops, shorter);
    } else {
      NotCut(lim, stops, ids);
    }
  }

  /** These facts leave one reply. */
  lemma AnswerIsOnly<E(!new), L(!new)>(m: Model<E, L>, lim: Limits, stops: Stops, base: seq<Token>, maxNew: nat, r: seq<Token>)
    requires base != [] && |r| <= maxNew && Greedy(m, base, r) && (r != [] ==> |base| + |r| <= lim.maxSeqLen + 1)
    requires Unfinished(lim, stops, r) && Complete(m, lim, stops, base, maxNew, r)
    ensures r == Answer(m, lim, stops, base, maxNew)
  {
    AnswerIsGreedy(m, lim, stops, base, maxNew);
    AnswerIsMaximal(m, lim, stops, base, maxNew);
    var other := Answer(m, lim, stops, base, maxNew);
    hide Answer;
    GreedyAgree(m, base, r, other);
    if |r| < |other| {
      NotComplete(m, lim, stops, base, maxNew, r, other);
    } else if |other| < |r| {
      NotComplete(m, lim, stops, base, maxNew, other, r);
    }
  }

  lemma {:induction false} GreedyAgree<E(!new), L(!new)>(m: Model<E, L>, base: seq<Token>, a: seq<Token>, b: seq<Token>)
    requires base != [] && Greedy(m, base, a) && Greedy(m, base, b)
    ensures a <= b || b <= a
    decreases |a|
  {
    hide Model.Next;
    if a != [] {
      var k := |a| - 1;
      GreedyPrefix(m, base, a, k);
      hide Greedy;
      assert Greedy(m, base, a[..k]);
      GreedyAgree(m, base, a[..k], b);
      if k < |b| {
        assert a[..k] == b[..k];
        GreedyAt(m, base, a, k);
        GreedyAt(m, base, b, k);
        assert a == a[..k] + [a[k]];
      }
    }
  }

  lemma GreedyPrefix<E(!new), L(!new)>(m: Model<E, L>, base: seq<Token>, ids: seq<Token>, k: nat)
    requires base != [] && k <= |ids| && Greedy(m, base, ids)
    ensures Greedy(m, base, ids[..k])
  {
    hide Model.Next;
    forall i | 0 <= i < k ensures ids[..k][i] == m.Next(base + ids[..k][..i]) {
      assert ids[..k][..i] == ids[..i];
    }
  }

  lemma GreedyAt<E(!new), L(!new)>(m: Model<E, L>, base: seq<Token>, ids: seq<Token>, k: nat)
    requires base != [] && k < |ids| && Greedy(m, base, ids)
    ensures ids[k] == m.Next(base + ids[..k])
  {
  }

  /** A reply with a longer one behind it could have gone on. */
  lemma NotComplete<E(!new), L(!new)>(m: Model<E, L>, lim: Limits, stops: Stops, base: seq<Token>, maxNew: nat,
                      a: seq<Token>, b: seq<Token>)
    requires base != [] && a < b && |b| <= maxNew && Greedy(m, base, b)
    requires Unfinished(lim, stops, b) && |base| + |b| <= lim.maxSeqLen + 1
    ensures !Complete(m, lim, stops, base, maxNew, a)
  {
    var n := |a|;
    GreedyAt(m, base, b, n);
    hide Model.Next, Greedy, Stops.Hit;
    assert b[..n] == a;
    assert b[..n + 1] == a + [b[n]];
    assert !stops.Hit(b[..n + 1]);
    assert a != [] ==> a[n - 1] == b[n - 1];
  }

  /** Generation goes on by one token, unless it is over. */
  lemma DecodedOnce<E(!new), L(!new)>(m: Model<E, L>, lim: Limits, stops: Stops, base: seq<Token>, ids: seq<Token>, k: nat)
    requires base != []
    ensures k == 0 || lim.maxSeqLen < |base| + |ids| ==> Decoded(m, lim, stops, base, ids, k) == ids
    ensures k > 0 && |base| + |ids| <= lim.maxSeqLen ==>
              var ids' := ids + [m.Next(base + ids)];
              Decoded(m, lim, stops, base, ids, k) == if Ends(lim, stops, ids') then ids' else Decoded(m, lim, stops, base, ids', k - 1)
  {
    hide Model.Next, Ends;
  }
}
