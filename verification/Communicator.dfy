/** The socket communicator as it runs on one rank: frames on streams, the reduction into the
    caller's buffer, the hub's and a spoke's side of each collective, and the hub's handshake. */
module Communicator {
  import opened Options
  import opened Wire
  import opened Collective

  /** One end of a connection: the bytes that have come in and are not read, and all bytes
      written. */
  class Stream {
    var incoming: seq<byte>
    var outgoing: seq<byte>

    /** Takes a frame off the stream; fails at the end of the stream and on any other frame. */
    method ReadFrame(tag: byte, length: nat) returns (r: Option<seq<byte>>)
      modifies this`incoming
      ensures r.Some? <==> Wire.ReadFrame(old(incoming), tag, length).Some?
      ensures r.Some? ==> Wire.ReadFrame(old(incoming), tag, length) == Some((r.value, incoming))
    {
      if |incoming| < 9 {
        return None;
      }
      var header := incoming[..9];
      incoming := incoming[9..];
      assert header[1..] == old(incoming)[1..9];
      if header[0] != tag || FromLittleEndian(header[1..]) != length || |incoming| < length {
        return None;
      }
      assert incoming[..length] == old(incoming)[9..9 + length] && incoming[length..] == old(incoming)[9 + length..];
      r := Some(incoming[..length]);
      incoming := incoming[length..];
    }

    method WriteFrame(tag: byte, payload: seq<byte>)
      modifies this`outgoing
      ensures outgoing == old(outgoing) + Frame(tag, payload)
    {
      var header := [tag] + LittleEndian(|payload|, 8);
      outgoing := outgoing + header;
      outgoing := outgoing + payload;
      assert outgoing == old(outgoing) + Frame(tag, payload);
    }
  }

  // ----- the reduction -----

  /** The four bytes of one f32. */
  type Word = s: seq<byte> | |s| == 4 witness [0, 0, 0, 0]

  function WordAt(s: seq<byte>, k: nat): Word
    requires 4 * k + 4 <= |s|
  {
    s[4 * k..4 * k + 4]
  }

  function Min(a: nat, b: nat): nat {
    if a < b then a else b
  }

  /** The words both buffers have. */
  function CommonWords(a: seq<byte>, b: seq<byte>): nat {
    Min(|a| / 4, |b| / 4)
  }

  /** Word by word addition of b into a; bytes past the last common word stay. */
  function Reduced(add: (Word, Word) -> Word, a: seq<byte>, b: seq<byte>): (r: seq<byte>)
    ensures |r| == |a|
  {
    seq(|a|, i requires 0 <= i < |a| =>
      if i / 4 < CommonWords(a, b) then add(WordAt(a, i / 4), WordAt(b, i / 4))[i % 4] else a[i])
  }

  lemma ReducedWord(add: (Word, Word) -> Word, a: seq<byte>, b: seq<byte>, k: nat)
    requires k < CommonWords(a, b)
    ensures WordAt(Reduced(add, a, b), k) == add(WordAt(a, k), WordAt(b, k))
  {
    forall j | 0 <= j < 4
      ensures Reduced(add, a, b)[4 * k + j] == add(WordAt(a, k), WordAt(b, k))[j]
    {
      assert (4 * k + j) / 4 == k && (4 * k + j) % 4 == j;
    }
  }

  /** In terms of the bytes: a word that both buffers have is the sum, all other bytes stay. */
  lemma ReducedBytes(add: (Word, Word) -> Word, a: seq<byte>, b: seq<byte>, k: nat, i: nat)
    ensures 4 * k + 4 <= |a| && 4 * k + 4 <= |b| ==>
              Reduced(add, a, b)[4 * k..4 * k + 4] == add(a[4 * k..4 * k + 4], b[4 * k..4 * k + 4])
    ensures 4 * k <= i < 4 * k + 4 && i < |a| && (|a| < 4 * k + 4 || |b| < 4 * k + 4) ==> Reduced(add, a, b)[i] == a[i]
  {
    if 4 * k <= i < 4 * k + 4 && i < |a| && (|a| < 4 * k + 4 || |b| < 4 * k + 4) {
      assert i / 4 == k >= CommonWords(a, b);
      assert Reduced(add, a, b)[i] == a[i];
    }
    if 4 * k + 4 <= |a| && 4 * k + 4 <= |b| {
      ReducedWord(add, a, b, k);
    }
  }

  /** Adds the words of `other` into `acc` in place. */
  method Reduce(acc: array<byte>, other: seq<byte>, add: (Word, Word) -> Word)
    modifies acc
    ensures acc[..] == Reduced(add, old(acc[..]), other)
  {
    ghost var before := acc[..];
    ghost var result := Reduced(add, before, other);
    var n := Min(acc.Length / 4, |other| / 4);
    for k := 0 to n
      invariant forall i :: 4 * k <= i < acc.Length ==> acc[i] == before[i]
      invariant forall i :: 0 <= i < 4 * k ==> acc[i] == result[i]
    {
      var sum := add(acc[4 * k..4 * k + 4], WordAt(other, k));
      assert acc[4 * k..4 * k + 4] == WordAt(before, k);
      ReducedWord(add, before, other, k);
      acc[4 * k], acc[4 * k + 1], acc[4 * k + 2], acc[4 * k + 3] := sum[0], sum[1], sum[2], sum[3];
      assert sum == result[4 * k..4 * k + 4];
    }
    forall i | 0 <= i < acc.Length ensures acc[i] == result[i] {
      if 4 * n <= i {
        assert i / 4 >= CommonWords(before, other);
      }
    }
    assert acc[..] == result;
  }

  // ----- the hub's side -----

  ghost predicate Distinct(peers: seq<Stream>) {
    forall i, j :: 0 <= i < j < |peers| ==> peers[i] != peers[j]
  }

  function Incoming(peers: seq<Stream>): (r: seq<seq<byte>>)
    reads peers
    ensures |r| == |peers| && forall i :: 0 <= i < |peers| ==> r[i] == peers[i].incoming
  {
    seq(|peers|, i requires 0 <= i < |peers| reads peers => peers[i].incoming)
  }

  function Outgoing(peers: seq<Stream>): (r: seq<seq<byte>>)
    reads peers
    ensures |r| == |peers| && forall i :: 0 <= i < |peers| ==> r[i] == peers[i].outgoing
  {
    seq(|peers|, i requires 0 <= i < |peers| reads peers => peers[i].outgoing)
  }

  /** Each of the first n streams starts with a frame of the given tag and length. */
  ghost predicate AllSent(streams: seq<seq<byte>>, tag: byte, length: nat, n: nat)
    requires n <= |streams|
  {
    forall i :: 0 <= i < n ==> Wire.ReadFrame(streams[i], tag, length).Some?
  }

  lemma SentBefore(streams: seq<seq<byte>>, tag: byte, length: nat, n: nat)
    requires n <= |streams|
    ensures AllSent(streams, tag, length, |streams|) ==> AllSent(streams, tag, length, n)
  {
  }

  /** The payload of the frame of the given tag and length that a stream starts with. */
  function Payload(s: seq<byte>, tag: byte, length: nat): Option<seq<byte>> {
    match Wire.ReadFrame(s, tag, length)
    case Some((payload, _)) => Some(payload)
    case None => None
  }

  /** The first n streams after their first frame is taken, the others as they were. */
  ghost predicate FramesTaken(before: seq<seq<byte>>, after: seq<seq<byte>>, tag: byte, length: nat, n: nat)
    requires n <= |before| == |after| && AllSent(before, tag, length, n)
  {
    && (forall i :: 0 <= i < n ==> after[i] == Wire.ReadFrame(before[i], tag, length).value.1)
    && forall i :: n <= i < |before| ==> after[i] == before[i]
  }

  /** The first n streams each got one more frame, the others nothing. */
  ghost predicate FramesAdded(before: seq<seq<byte>>, after: seq<seq<byte>>, frame: seq<byte>, n: nat)
    requires n <= |before| == |after|
  {
    && (forall i :: 0 <= i < n ==> after[i] == before[i] + frame)
    && forall i :: n <= i < |before| ==> after[i] == before[i]
  }

  /** The hub's buffer after it has added the first n spokes' payloads, in rank order. */
  ghost function Folded(add: (Word, Word) -> Word, buf: seq<byte>, streams: seq<seq<byte>>, tag: byte,
                      n: nat): (r: seq<byte>)
    requires n <= |streams| && AllSent(streams, tag, |buf|, n)
    ensures |r| == |buf|
  {
    if n == 0 then buf
    else Reduced(add, Folded(add, buf, streams, tag, n - 1), Payload(streams[n - 1], tag, |buf|).value)
  }

  /** In terms of the bytes: a whole word of the fold is the hub's own word plus the spokes' words,
      added in rank order. */
  lemma FoldedWords(add: (Word, Word) -> Word, buf: seq<byte>, streams: seq<seq<byte>>, tag: byte, n: nat, k: nat)
    requires n < |streams| && AllSent(streams, tag, |buf|, n + 1) && 4 * k + 4 <= |buf|
    ensures AllSent(streams, tag, |buf|, n) && |streams[n]| >= 9 + |buf|
    ensures Folded(add, buf, streams, tag, 0) == buf
    ensures Folded(add, buf, streams, tag, n + 1)[4 * k..4 * k + 4] ==
            add(Folded(add, buf, streams, tag, n)[4 * k..4 * k + 4], streams[n][9 + 4 * k..9 + 4 * k + 4])
  {
    assert Wire.ReadFrame(streams[n], tag, |buf|).Some?;
    var payload := streams[n][9..9 + |buf|];
    assert Payload(streams[n], tag, |buf|) == Some(payload);
    var before, after := Folded(add, buf, streams, tag, n), Folded(add, buf, streams, tag, n + 1);
    assert after == Reduced(add, before, payload);
    hide *;
    SliceOfSlice(streams[n], 9, |buf|, 4 * k);
    ReducedBytes(add, before, payload, k, 0);
  }

  lemma SliceOfSlice(s: seq<byte>, from: nat, length: nat, at: nat)
    requires from + length <= |s| && at + 4 <= length
    ensures s[from..from + length][at..at + 4] == s[from + at..from + at + 4]
  {
    var part := s[from..from + length];
    assert part[at] == s[from + at] && part[at + 1] == s[from + at + 1];
    assert part[at + 2] == s[from + at + 2] && part[at + 3] == s[from + at + 3];
  }

  lemma NothingTaken(add: (Word, Word) -> Word, buf: seq<byte>, streams: seq<seq<byte>>)
    ensures AllSent(streams, TAG_ALL_REDUCE, |buf|, 0) && FramesTaken(streams, streams, TAG_ALL_REDUCE, |buf|, 0)
    ensures Folded(add, buf, streams, TAG_ALL_REDUCE, 0) == buf
  {
  }

  /** Sends one frame to every spoke. */
  method SendAll(peers: seq<Stream>, tag: byte, payload: seq<byte>)
    requires Distinct(peers)
    modifies peers
    ensures Incoming(peers) == old(Incoming(peers))
    ensures FramesAdded(old(Outgoing(peers)), Outgoing(peers), Frame(tag, payload), |peers|)
  {
    for n := 0 to |peers|
      invariant Incoming(peers) == old(Incoming(peers))
      invariant FramesAdded(old(Outgoing(peers)), Outgoing(peers), Frame(tag, payload), n)
    {
      peers[n].WriteFrame(tag, payload);
    }
  }

  /** Reads the next spoke's frame, when the frames of the first n are taken. */
  method TakeFrame(peers: seq<Stream>, n: nat, tag: byte, length: nat, ghost sent: seq<seq<byte>>)
    returns (r: Option<seq<byte>>)
    requires Distinct(peers) && n < |peers| == |sent| && AllSent(sent, tag, length, n)
    requires FramesTaken(sent, Incoming(peers), tag, length, n)
    modifies peers
    ensures Outgoing(peers) == old(Outgoing(peers))
    ensures r.Some? <==> AllSent(sent, tag, length, n + 1)
    ensures r.Some? ==> Some(r.value) == Payload(sent[n], tag, length) && FramesTaken(sent, Incoming(peers), tag, length, n + 1)
  {
    hide Wire.ReadFrame;
    r := peers[n].ReadFrame(tag, length);
  }

  /** Reads the next spoke's frame and adds it into the buffer. */
  method GatherNext(peers: seq<Stream>, n: nat, buf: array<byte>, add: (Word, Word) -> Word,
                    ghost sent: seq<seq<byte>>, ghost start: seq<byte>)
    returns (ok: bool)
    requires Distinct(peers) && n < |peers| == |sent| && |start| == buf.Length
    requires AllSent(sent, TAG_ALL_REDUCE, buf.Length, n)
    requires FramesTaken(sent, Incoming(peers), TAG_ALL_REDUCE, buf.Length, n)
    requires buf[..] == Folded(add, start, sent, TAG_ALL_REDUCE, n)
    modifies peers, buf
    ensures Outgoing(peers) == old(Outgoing(peers))
    ensures ok <==> AllSent(sent, TAG_ALL_REDUCE, buf.Length, n + 1)
    ensures ok ==>
      && FramesTaken(sent, Incoming(peers), TAG_ALL_REDUCE, buf.Length, n + 1)
      && buf[..] == Folded(add, start, sent, TAG_ALL_REDUCE, n + 1)
  {
    hide Wire.ReadFrame, Payload, Reduced, AllSent, FramesTaken, Distinct;
    var recv := TakeFrame(peers, n, TAG_ALL_REDUCE, buf.Length, sent);
    ok := recv.Some?;
    if ok {
      ghost var incoming, outgoing := Incoming(peers), Outgoing(peers);
      Reduce(buf, recv.value, add);
      assert Incoming(peers) == incoming && Outgoing(peers) == outgoing;
    }
  }

  /** Reads one frame from every spoke in rank order and adds it into the buffer. */
  method GatherAll(peers: seq<Stream>, buf: array<byte>, add: (Word, Word) -> Word) returns (ok: bool)
    requires Distinct(peers)
    modifies peers, buf
    ensures Outgoing(peers) == old(Outgoing(peers))
    ensures ok <==> AllSent(old(Incoming(peers)), TAG_ALL_REDUCE, buf.Length, |peers|)
    ensures ok ==>
      && buf[..] == Folded(add, old(buf[..]), old(Incoming(peers)), TAG_ALL_REDUCE, |peers|)
      && FramesTaken(old(Incoming(peers)), Incoming(peers), TAG_ALL_REDUCE, buf.Length, |peers|)
  {
    hide Incoming, Outgoing, Wire.ReadFrame, Payload, Reduced, Folded, AllSent, FramesTaken, Distinct;
    ghost var sent, start, outgoing := Incoming(peers), buf[..], Outgoing(peers);
    NothingTaken(add, start, sent);
    for n := 0 to |peers|
      invariant AllSent(sent, TAG_ALL_REDUCE, buf.Length, n)
      invariant FramesTaken(sent, Incoming(peers), TAG_ALL_REDUCE, buf.Length, n)
      invariant Outgoing(peers) == outgoing
      invariant buf[..] == Folded(add, start, sent, TAG_ALL_REDUCE, n)
    {
      ok := GatherNext(peers, n, buf, add, sent, start);
      if !ok {
        SentBefore(sent, TAG_ALL_REDUCE, buf.Length, n + 1);
        return;
      }
    }
    ok := true;
  }

  /** The hub's all-reduce: succeeds exactly when every spoke has sent an all-reduce frame of
      the buffer's length; then every spoke is sent the fold in rank order. */
  method HubAllReduce(peers: seq<Stream>, buf: array<byte>, add: (Word, Word) -> Word) returns (ok: bool)
    requires Distinct(peers)
    modifies peers, buf
    ensures ok <==> buf.Length % 4 == 0 && AllSent(old(Incoming(peers)), TAG_ALL_REDUCE, buf.Length, |peers|)
    ensures ok ==>
      && buf[..] == Folded(add, old(buf[..]), old(Incoming(peers)), TAG_ALL_REDUCE, |peers|)
      && FramesTaken(old(Incoming(peers)), Incoming(peers), TAG_ALL_REDUCE, buf.Length, |peers|)
      && FramesAdded(old(Outgoing(peers)), Outgoing(peers), Frame(TAG_ALL_REDUCE, buf[..]), |peers|)
  {
    if buf.Length % 4 != 0 {
      return false;
    }
    ok := GatherAll(peers, buf, add);
    if ok {
      hide Wire.ReadFrame, Wire.Frame, Reduced, FramesAdded, AllSent, Distinct;
      SendAll(peers, TAG_ALL_REDUCE, buf[..]);
    }
  }

  /** The hub's barrier: succeeds exactly when every spoke has sent a barrier frame; then every
      spoke is sent one. */
  method HubBarrier(peers: seq<Stream>) returns (ok: bool)
    requires Distinct(peers)
    modifies peers
    ensures ok <==> AllSent(old(Incoming(peers)), TAG_BARRIER, 0, |peers|)
    ensures ok ==>
      && FramesTaken(old(Incoming(peers)), Incoming(peers), TAG_BARRIER, 0, |peers|)
      && FramesAdded(old(Outgoing(peers)), Outgoing(peers), Frame(TAG_BARRIER, []), |peers|)
  {
    ghost var sent := Incoming(peers);
    for n := 0 to |peers|
      invariant AllSent(sent, TAG_BARRIER, 0, n)
      invariant FramesTaken(sent, Incoming(peers), TAG_BARRIER, 0, n)
      invariant Outgoing(peers) == old(Outgoing(peers))
    {
      var recv := TakeFrame(peers, n, TAG_BARRIER, 0, sent);
      if recv.None? {
        return false;
      }
    }
    SendAll(peers, TAG_BARRIER, []);
    ok := true;
  }

  // ----- a spoke's side -----

  /** A spoke's all-reduce: sends its buffer and takes the hub's answer in its place. */
  method SpokeAllReduce(hub: Stream, buf: array<byte>) returns (ok: bool)
    modifies hub, buf
    ensures hub.outgoing == old(hub.outgoing) + if buf.Length % 4 == 0 then Frame(TAG_ALL_REDUCE, old(buf[..])) else []
    ensures ok <==> buf.Length % 4 == 0 && Wire.ReadFrame(old(hub.incoming), TAG_ALL_REDUCE, buf.Length).Some?
    ensures ok ==> Wire.ReadFrame(old(hub.incoming), TAG_ALL_REDUCE, buf.Length) == Some((buf[..], hub.incoming))
  {
    hide Wire.ReadFrame, Frame;
    if buf.Length % 4 != 0 {
      return false;
    }
    hub.WriteFrame(TAG_ALL_REDUCE, buf[..]);
    var answer := hub.ReadFrame(TAG_ALL_REDUCE, buf.Length);
    if answer.None? {
      return false;
    }
    forall i | 0 <= i < buf.Length {
      buf[i] := answer.value[i];
    }
    assert buf[..] == answer.value;
    ok := true;
  }

  method SpokeBarrier(hub: Stream) returns (ok: bool)
    modifies hub
    ensures hub.outgoing == old(hub.outgoing) + Frame(TAG_BARRIER, [])
    ensures ok <==> Wire.ReadFrame(old(hub.incoming), TAG_BARRIER, 0).Some?
    ensures ok ==> Wire.ReadFrame(old(hub.incoming), TAG_BARRIER, 0) == Some(([], hub.incoming))
  {
    hub.WriteFrame(TAG_BARRIER, []);
    var answer := hub.ReadFrame(TAG_BARRIER, 0);
    ok := answer.Some?;
  }

  // ----- the code against the protocol -----

  function TagOf(kind: Kind): (tag: byte)
    ensures tag == if kind.AllReduce? then 1 else 2
  {
    match kind
    case AllReduce => TAG_ALL_REDUCE
    case Barrier => TAG_BARRIER
  }

  /** A frame fits a call in the protocol exactly when the code's read takes it. */
  lemma FitsIsRead(m: Message, call: Call, rest: seq<byte>)
    requires |m.payload| < Range(8)
    ensures m.Fits(call) <==> Wire.ReadFrame(Frame(TagOf(m.kind), m.payload) + rest, TagOf(call.kind), call.length).Some?
    ensures m.Fits(call) ==>
              Wire.ReadFrame(Frame(TagOf(m.kind), m.payload) + rest, TagOf(call.kind), call.length) == Some((m.payload, rest))
  {
    FrameMismatch(TagOf(m.kind), m.payload, rest, TagOf(call.kind), call.length);
    FrameRead(Frame(TagOf(m.kind), m.payload) + rest, TagOf(m.kind), m.payload, rest);
  }

  /** What the hub's code folds from the spokes' all-reduce frames of one round is what the
      protocol's hub holds after it has read them. */
  lemma {:induction false} FoldIsTotal(w: World, add: (Word, Word) -> Word, k: nat, n: nat, streams: seq<seq<byte>>)
    requires w.Valid() && w.combine == ((a: seq<byte>, b: seq<byte>) => Reduced(add, a, b))
    requires n <= |streams| && n <= w.spokes && AllSent(streams, TAG_ALL_REDUCE, |w.input(0, k)|, n)
    requires forall i: nat :: i < n ==> Payload(streams[i], TAG_ALL_REDUCE, |w.input(0, k)|) == Some(w.input(i + 1, k))
    ensures Folded(add, w.input(0, k), streams, TAG_ALL_REDUCE, n) == w.Total(k, n)
    decreases n
  {
    if n > 0 {
      FoldIsTotal(w, add, k, n - 1, streams);
      var i: nat := n - 1;
      assert Payload(streams[i], TAG_ALL_REDUCE, |w.input(0, k)|) == Some(w.input(i + 1, k));
    }
  }
}
