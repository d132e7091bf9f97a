/** The generation session: a key/value cache that prefill and decode runs write in place, and
    the number of positions whose entries count. */
module LlmSession {
  import opened Options
  import opened Generation

  datatype Reply = Tokens(ids: seq<Token>) | PromptTooLong(needed: nat, pastLen: nat)

  datatype Call = Reset | Generate(prompt: seq<Token>, maxNew: nat, stops: Stops)

  /** The tokens the cache stands for after a call, and the reply. */
  ghost function Outcome<E(!new), L(!new)>(m: Model<E, L>, lim: Limits, h: seq<Token>, call: Call): (seq<Token>, Reply)
    requires lim.Valid()
  {
    match call
    case Reset => ([], Tokens([]))
    case Generate(prompt, maxNew, stops) =>
      if prompt == [] then (h, Tokens([]))
      else if lim.maxSeqLen < |h| + lim.Needed(|prompt|) then
        (h, PromptTooLong(|h| + lim.Needed(|prompt|), |h|))
      else if maxNew == 0 then (h, Tokens([]))
      else
        var ids := Answer(m, lim, stops, h + prompt, maxNew);
        (Kept(h + prompt, ids), Tokens(ids))
  }

  /** All but the last of the tokens fed and generated: the last one has no entry yet, and when
      every generated token was popped it is the prompt's own last token that is dropped. */
  function Kept(base: seq<Token>, ids: seq<Token>): (r: seq<Token>)
    requires base != []
    ensures |r| == |base| + |ids| - 1 && r <= base + ids
  {
    (base + ids)[..|base| + |ids| - 1]
  }

  function SaturatingSub(a: nat, b: nat): nat {
    if a < b then 0 else a - b
  }

  class Session<E(!new), L(!new)> {
    const model: Model<E, L>
    const limits: Limits
    const cache: array<E>
    var pastLen: nat
    ghost var history: seq<Token>

    /** The first pastLen cache entries are those of the history. */
    ghost predicate Valid()
      reads this, cache
    {
      && limits.Valid() && cache.Length == limits.maxSeqLen
      && pastLen == |history| <= limits.maxSeqLen
      && cache[..pastLen] == model.Entries(history)
    }

    constructor (model: Model<E, L>, limits: Limits, blank: E)
      requires limits.Valid()
      ensures Valid() && history == [] && fresh(cache)
      ensures this.model == model && this.limits == limits
    {
      this.model, this.limits := model, limits;
      cache := new E[limits.maxSeqLen](_ => blank);
      pastLen, history := 0, [];
      new;
      assert cache[..0] == [];
    }

    method Reset()
      requires Valid()
      modifies this`pastLen, this`history
      ensures Valid() && pastLen == 0 && history == []
    {
      pastLen, history := 0, [];
      assert cache[..0] == [];
    }

    method WriteEntry(pos: nat, entry: E)
      requires pos < cache.Length
      modifies cache
      ensures cache[..pos + 1] == old(cache[..pos]) + [entry]
      ensures cache[pos + 1..] == old(cache[pos + 1..])
    {
      cache[pos] := entry;
    }

    /** One position of a run: writes its entry after those of the tokens h. */
    method FeedOne(token: Token, pos: nat, ghost h: seq<Token>) returns (row: L)
      requires pos < cache.Length && cache[..pos] == model.Entries(h)
      modifies cache
      ensures cache[..pos + 1] == model.Entries(h + [token]) && row == model.Row(h + [token])
      ensures cache[pos + 1..] == old(cache[pos + 1..]) && cache[..pos] == old(cache[..pos])
    {
      hide Model.Entries, Model.Row;
      model.Feed(h, token);
      var before := cache[..pos];
      row := model.logits(before, token);
      WriteEntry(pos, model.entry(before, token));
      assert cache[..pos] == cache[..pos + 1][..pos] == before;
    }

    /** One run of the network on tokens at the next positions: writes their cache entries and
        returns a row of logits for each. */
    method Run(tokens: seq<Token>) returns (rows: seq<L>)
      requires Valid() && pastLen + |tokens| <= limits.maxSeqLen
      modifies cache
      ensures Valid() && cache[..pastLen + |tokens|] == model.Entries(history + tokens)
      ensures cache[pastLen + |tokens|..] == old(cache[pastLen + |tokens|..])
      ensures |rows| == |tokens| && forall i :: 0 <= i < |tokens| ==> rows[i] == model.Row(history + tokens[..i + 1])
    {
      hide Model.Entries, Model.Row;
      rows := [];
      ghost var after := cache[pastLen + |tokens|..];
      assert history + tokens[..0] == history;
      for i := 0 to |tokens|
        invariant cache[..pastLen + i] == model.Entries(history + tokens[..i])
        invariant cache[..pastLen] == model.Entries(history)
        invariant cache[pastLen + |tokens|..] == after
        invariant |rows| == i && forall j :: 0 <= j < i ==> rows[j] == model.Row(history + tokens[..j + 1])
      {
        var row := FeedOne(tokens[i], pastLen + i, history + tokens[..i]);
        assert history + tokens[..i + 1] == history + tokens[..i] + [tokens[i]];
        rows := rows + [row];
        assert cache[pastLen + |tokens|..] == cache[pastLen + i + 1..][|tokens| - i - 1..];
      }
      assert tokens[..|tokens|] == tokens;
    }

    /** Feeds one token and returns the model's next one. */
    method DecodeStep(token: Token) returns (next: Token)
      requires Valid() && pastLen + 1 <= limits.maxSeqLen
      modifies this`pastLen, this`history, cache
      ensures Valid() && history == old(history) + [token] && next == model.Next(history)
    {
      var rows := Run([token]);
      assert [token][..1] == [token];
      next := model.argmax(rows[0]);
      pastLen, history := pastLen + 1, history + [token];
    }

    /** Feeds the prompt in chunks of the prefill length, the last one padded with token 0, and
        returns the logits of the last prompt token. */
    method RunPrefillRec(prompt: seq<Token>) returns (row: L)
      requires Valid() && prompt != [] && limits.prefillLen.Some?
      requires pastLen + limits.Needed(|prompt|) <= limits.maxSeqLen
      modifies this`pastLen, this`history, cache
      ensures Valid() && history == old(history) + prompt && row == model.Row(history)
      decreases |prompt|
    {
      var p := limits.prefillLen.value;
      limits.NeededStep(|prompt|, p);
      var chunkSize := if |prompt| < p then |prompt| else p;
      row := RunChunk(prompt[..chunkSize]);
      if chunkSize == |prompt| {
        assert prompt[..chunkSize] == prompt;
      } else {
        row := RunPrefillRec(prompt[chunkSize..]);
        assert old(history) + prompt[..chunkSize] + prompt[chunkSize..] == old(history) + prompt;
      }
    }

    /** One padded chunk: the padding is written past the new end and never counted. */
    method RunChunk(chunk: seq<Token>) returns (row: L)
      requires Valid() && limits.prefillLen.Some? && 0 < |chunk| <= limits.prefillLen.value
      requires pastLen + limits.prefillLen.value <= limits.maxSeqLen
      modifies this`pastLen, this`history, cache
      ensures Valid() && history == old(history) + chunk && row == model.Row(history)
    {
      var n := |chunk|;
      var padded := chunk + seq(limits.prefillLen.value - n, _ => 0);
      var rows := Run(padded);
      assert padded[..n] == chunk;
      row := rows[n - 1];
      assert (history + padded)[..pastLen + n] == history + chunk;
      model.EntriesOfPrefix(history + padded, pastLen + n);
      assert cache[..pastLen + |padded|][..pastLen + n] == cache[..pastLen + n];
      pastLen, history := pastLen + n, history + chunk;
    }

    /** Feeds a prompt, through the prefill model if there is one and token by token if not:
        either way the same entries and the same next token. */
    method FeedPrompt(prompt: seq<Token>) returns (next: Token)
      requires Valid() && prompt != [] && pastLen + limits.Needed(|prompt|) <= limits.maxSeqLen
      modifies this`pastLen, this`history, cache
      ensures Valid() && history == old(history) + prompt && next == model.Next(history)
    {
      if limits.prefillLen.Some? {
        var row := RunPrefillRec(prompt);
        next := model.argmax(row);
        return;
      }
      ghost var start := history;
      next := 0;
      for i := 0 to |prompt|
        invariant Valid() && history == start + prompt[..i]
        invariant i > 0 ==> next == model.Next(history)
      {
        next := DecodeStep(prompt[i]);
        assert prompt[..i + 1] == prompt[..i] + [prompt[i]];
      }
      assert prompt[..|prompt|] == prompt;
    }

    /** Pops tokens while the text holds a stop string, and rewinds the cache with them. */
    method TruncateAtStop(newIds: seq<Token>, stops: Stops, ghost base: seq<Token>) returns (ids: seq<Token>)
      requires Valid() && base != [] && history == Kept(base, newIds)
      modifies this`pastLen, this`history
      ensures Valid() && ids == Truncated(stops, newIds) && history == Kept(base, ids)
      ensures ids <= newIds && (ids != [] ==> !stops.Hit(ids))
      ensures forall n :: |ids| < n <= |newIds| ==> stops.Hit(newIds[..n])
    {
      ids := newIds;
      if !stops.any {
        return;
      }
      while ids != [] && stops.Hit(ids)
        invariant Valid() && history == Kept(base, ids)
        invariant Truncated(stops, ids) == Truncated(stops, newIds)
        decreases |ids|
      {
        model.EntriesOfPrefix(history, pastLen - 1);
        assert cache[..pastLen][..pastLen - 1] == cache[..pastLen - 1];
        assert Kept(base, ids[..|ids| - 1]) == history[..pastLen - 1];
        ids := ids[..|ids| - 1];
        history := history[..pastLen - 1];
        pastLen := SaturatingSub(pastLen, 1);
      }
    }

    /** Answers a prompt that fits, and refuses one that does not: only in the first case the
        cache is written. */
    method Generate(prompt: seq<Token>, maxNew: nat, stops: Stops) returns (reply: Reply)
      requires Valid()
      modifies this`pastLen, this`history, cache
      ensures Valid()
      ensures (history, reply) == Outcome(model, limits, old(history), Call.Generate(prompt, maxNew, stops))
      ensures reply.PromptTooLong? <==> prompt != [] && limits.maxSeqLen < old(pastLen) + limits.Needed(|prompt|)
      ensures reply.PromptTooLong? ==>
                reply.needed == pastLen + limits.Needed(|prompt|) && reply.pastLen == pastLen == old(pastLen) && history == old(history)
      ensures reply.Tokens? && (prompt == [] || maxNew == 0) ==> reply.ids == [] && history == old(history)
      ensures reply.Tokens? && prompt != [] && maxNew > 0 ==>
                && reply.ids == Answer(model, limits, stops, old(history) + prompt, maxNew)
                && history <= old(history) + prompt + reply.ids
                && pastLen == old(pastLen) + |prompt| + |reply.ids| - 1
    {
      if prompt == [] {
        return Tokens([]);
      }
      var needed := pastLen + limits.Needed(|prompt|);
      if limits.maxSeqLen < needed {
        return PromptTooLong(needed, pastLen);
      }
      limits.NeededCovers(|prompt|);
      if maxNew == 0 {
        return Tokens([]);
      }
      var ids := GenerateIds(prompt, maxNew, stops);
      reply := Tokens(ids);
    }

    /** There is room in the cache to feed the prompt. */
    ghost predicate Room(prompt: seq<Token>)
      requires limits.Valid()
      reads this
    {
      pastLen + |prompt| <= pastLen + limits.Needed(|prompt|) <= limits.maxSeqLen
    }

    /** The cache stands for what the next token needs: the history before the prompt, or all
        tokens but the last. */
    ghost predicate Continues(prompt: seq<Token>, ids: seq<Token>, base: seq<Token>)
      requires limits.Valid() && base != []
      reads this
    {
      if ids == [] then base == history + prompt && Room(prompt) else history == Kept(base, ids)
    }

    /** The next token: from the prompt at first, then from the last token. */
    method NextToken(prompt: seq<Token>, newIds: seq<Token>, ghost base: seq<Token>) returns (token: Token)
      requires Valid() && prompt != [] && base != [] && Continues(prompt, newIds, base) && pastLen + 1 <= limits.maxSeqLen
      modifies this`pastLen, this`history, cache
      ensures Valid() && history == Kept(base, newIds + [token]) && token == model.Next(base + newIds)
    {
      if newIds == [] {
        token := FeedPrompt(prompt);
      } else {
        token := DecodeStep(newIds[|newIds| - 1]);
        assert Kept(base, newIds) + [newIds[|newIds| - 1]] == base + newIds;
      }
      assert history == base + newIds;
    }

    /** The generation loop. */
    method GenerateIds(prompt: seq<Token>, maxNew: nat, stops: Stops) returns (newIds: seq<Token>)
      requires Valid() && prompt != [] && maxNew > 0 && Room(prompt)
      modifies this`pastLen, this`history, cache
      ensures Valid() && newIds == Answer(model, limits, stops, old(history) + prompt, maxNew)
      ensures history == Kept(old(history) + prompt, newIds)
    {
      ghost var base := history + prompt;
      newIds := [];
      hide Decoded, Answer, Ends, Truncated, Model.Next, Kept, Model.Entries;
      for i := 0 to maxNew
        invariant Valid() && Continues(prompt, newIds, base) && |newIds| == i
        invariant newIds == [] || !Ends(limits, stops, newIds)
        invariant Decoded(model, limits, stops, base, newIds, maxNew - i) == Decoded(model, limits, stops, base, [], maxNew)
      {
        DecodedOnce(model, limits, stops, base, newIds, maxNew - i);
        if limits.maxSeqLen < pastLen + 1 {
          AnswerFromDecoded(model, limits, stops, base, maxNew);
          return;
        }
        var token := NextToken(prompt, newIds, base);
        newIds := newIds + [token];
        if Ends(limits, stops, newIds) {
          AnswerFromDecoded(model, limits, stops, base, maxNew);
          newIds := TruncateAtStop(newIds, stops, base);
          return;
        }
      }
      DecodedOnce(model, limits, stops, base, newIds, 0);
      AnswerFromDecoded(model, limits, stops, base, maxNew);
    }
  }

  // ----- sequences of calls -----

  ghost function Serve<E(!new), L(!new)>(m: Model<E, L>, lim: Limits, h: seq<Token>,
                      calls: seq<Call>): (r: (seq<Token>, seq<Reply>))
    requires lim.Valid()
    ensures |r.1| == |calls|
    decreases |calls|
  {
    if calls == [] then (h, [])
    else
      var (h', reply) := Outcome(m, lim, h, calls[0]);
      var rest := Serve(m, lim, h', calls[1..]);
      (rest.0, [reply] + rest.1)
  }

  /** The calls run one after another: a further call starts from where the others left off. */
  lemma {:induction false} ServedInTurn<E(!new), L(!new)>(m: Model<E, L>, lim: Limits, h: seq<Token>, calls: seq<Call>, call: Call)
    requires lim.Valid()
    ensures var (before, after) := (Serve(m, lim, h, calls), Serve(m, lim, h, calls + [call]));
            (after.0, after.1[|calls|]) == Outcome(m, lim, before.0, call) && after.1[..|calls|] == before.1
    decreases |calls|
  {
    hide Outcome;
    if calls == [] {
      assert (calls + [call])[1..] == [];
    } else {
      assert (calls + [call])[1..] == calls[1..] + [call];
      var (h', _) := Outcome(m, lim, h, calls[0]);
      ServedInTurn(m, lim, h', calls[1..], call);
    }
  }

  /** Prefill is transparent: over any sequence of generate and reset calls that it accepts, a
      session with a prefill model gives the replies of one that feeds every token through
      decode steps, and ends with the same cache entries. */
  lemma {:induction false} PrefillIsTransparent<E(!new), L(!new)>(m: Model<E, L>, lim: Limits, h: seq<Token>,
                      calls: seq<Call>)
    requires lim.Valid()
    requires forall i :: 0 <= i < |calls| ==> Serve(m, lim, h, calls).1[i].Tokens?
    ensures Serve(m, lim, h, calls) == Serve(m, lim.(prefillLen := None), h, calls)
    decreases |calls|
  {
    if calls != [] {
      var plain := lim.(prefillLen := None);
      var (h', reply) := Outcome(m, lim, h, calls[0]);
      var rest := Serve(m, lim, h', calls[1..]).1;
      assert Serve(m, lim, h, calls).1[0] == reply;
      if calls[0].Generate? && calls[0].prompt != [] {
        lim.NeededCovers(|calls[0].prompt|);
        AnswerIgnoresPrefill(m, lim, h, calls[0]);
      }
      forall i | 0 <= i < |calls| - 1 ensures rest[i].Tokens? {
        assert Serve(m, lim, h, calls).1[i + 1] == rest[i];
      }
      PrefillIsTransparent(m, lim, h', calls[1..]);
    }
  }

  lemma AnswerIgnoresPrefill<E(!new), L(!new)>(m: Model<E, L>, lim: Limits, h: seq<Token>, call: Call)
    requires call.Generate? && call.prompt != []
    ensures Answer(m, lim, call.stops, h + call.prompt, call.maxNew)
         == Answer(m, lim.(prefillLen := None), call.stops, h + call.prompt, call.maxNew)
  {
    DecodedIgnoresPrefill(m, lim, call.stops, h + call.prompt, [], call.maxNew);
  }

  lemma {:induction false} DecodedIgnoresPrefill<E(!new), L(!new)>(m: Model<E, L>, lim: Limits, stops: Stops,
                      base: seq<Token>, ids: seq<Token>, k: nat)
    requires base != []
    ensures Decoded(m, lim, stops, base, ids, k) == Decoded(m, lim.(prefillLen := None), stops, base, ids, k)
    decreases k
  {
    if k > 0 {
      DecodedIgnoresPrefill(m, lim, stops, base, ids + [m.Next(base + ids)], k - 1);
    }
  }

  /** What past_len should be after some calls, counted from the replies alone: a call that ran
      the model adds its prompt and its reply less one, a reset starts over. */
  function Counted(n: int, calls: seq<Call>, replies: seq<Reply>): int
    requires |calls| == |replies|
    decreases |calls|
  {
    if calls == [] then n else Counted(CountedOnce(n, calls[0], replies[0]), calls[1..], replies[1..])
  }

  function CountedOnce(n: int, call: Call, reply: Reply): int {
    match call
    case Reset => 0
    case Generate(prompt, maxNew, _) =>
      if prompt != [] && maxNew > 0 && reply.Tokens? then n + |prompt| + |reply.ids| - 1 else n
  }

  /** Over any sequence of calls, past_len is what the replies say, stop strings popped or not,
      and the cache is never overrun. */
  lemma {:induction false} PastLenIsCounted<E(!new), L(!new)>(m: Model<E, L>, lim: Limits, h: seq<Token>,
                      calls: seq<Call>)
    requires lim.Valid() && |h| <= lim.maxSeqLen
    ensures var (h', replies) := Serve(m, lim, h, calls);
            |h'| == Counted(|h|, calls, replies) && |h'| <= lim.maxSeqLen
    decreases |calls|
  {
    if calls != [] {
      var (h', reply) := Outcome(m, lim, h, calls[0]);
      var all := Serve(m, lim, h, calls).1;
      assert all[1..] == Serve(m, lim, h', calls[1..]).1 && all[0] == reply;
      OneCallIsCounted(m, lim, h, calls[0]);
      hide Outcome, Limits.Valid;
      PastLenIsCounted(m, lim, h', calls[1..]);
    }
  }

  lemma OneCallIsCounted<E(!new), L(!new)>(m: Model<E, L>, lim: Limits, h: seq<Token>, call: Call)
    requires lim.Valid() && |h| <= lim.maxSeqLen
    ensures var (h', reply) := Outcome(m, lim, h, call);
            |h'| == CountedOnce(|h|, call, reply) && |h'| <= lim.maxSeqLen
  {
    if call.Generate? && call.prompt != [] && |h| + lim.Needed(|call.prompt|) <= lim.maxSeqLen {
      lim.NeededCovers(|call.prompt|);
      DecodedFits(m, lim, call.stops, h + call.prompt, [], call.maxNew);
    }
    hide Limits.Needed, Decoded, Truncated;
  }

  lemma {:induction false} DecodedFits<E(!new), L(!new)>(m: Model<E, L>, lim: Limits, stops: Stops, base: seq<Token>,
                      ids: seq<Token>, k: nat)
    requires base != [] && |base| + |ids| <= lim.maxSeqLen + 1
    ensures |base| + |Decoded(m, lim, stops, base, ids, k)| <= lim.maxSeqLen + 1
    decreases k
  {
    if k > 0 && |base| + |ids| <= lim.maxSeqLen {
      DecodedFits(m, lim, stops, base, ids + [m.Next(base + ids)], k - 1);
    }
  }
}
