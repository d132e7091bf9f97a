/** The byte formats of the socket communicator: little-endian numbers, the hello message and
    the frame that carries one payload. */
module Wire {
  import opened Options
  import opened Arithmetic

  type byte = b: int | 0 <= b < 256

  const HELLO_MAGIC: nat := 0x4d59_4e43
  const TAG_ALL_REDUCE: byte := 1
  const TAG_BARRIER: byte := 2

  // ----- numbers -----

  /** The range of an n-byte number. */
  function Range(n: nat): (r: nat)
    ensures r > 0
  {
    if n == 0 then 1 else 256 * Range(n - 1)
  }

  function LittleEndian(v: nat, n: nat): (s: seq<byte>)
    ensures |s| == n
  {
    if n == 0 then [] else [v % 256] + LittleEndian(v / 256, n - 1)
  }

  function FromLittleEndian(s: seq<byte>): nat {
    if s == [] then 0 else s[0] + 256 * FromLittleEndian(s[1..])
  }

  /** The least significant byte comes first. */
  lemma {:induction false} ByteOrder(v: nat, n: nat, i: nat)
    requires i < n
    ensures Range(0) == 1 && Range(i + 1) == 256 * Range(i)
    ensures LittleEndian(v, n)[i] == v / Range(i) % 256
    decreases n
  {
    if i > 0 {
      ByteOrder(v / 256, n - 1, i - 1);
      DivModTwice(v, Range(i - 1), 256);
    }
  }

  /** Encoding keeps the low n bytes of a number. */
  lemma {:induction false} NumberRoundTrip(v: nat, n: nat)
    requires v < Range(n)
    ensures FromLittleEndian(LittleEndian(v, n)) == v
    decreases n
  {
    if n > 0 {
      NumberRoundTrip(v / 256, n - 1);
      assert LittleEndian(v, n)[1..] == LittleEndian(v / 256, n - 1);
    }
  }

  lemma {:induction false} BytesRoundTrip(s: seq<byte>)
    ensures FromLittleEndian(s) < Range(|s|)
    ensures LittleEndian(FromLittleEndian(s), |s|) == s
    decreases |s|
  {
    if s != [] {
      BytesRoundTrip(s[1..]);
      var low, high := s[0], FromLittleEndian(s[1..]);
      assert (low + 256 * high) % 256 == low && (low + 256 * high) / 256 == high;
      assert s == [s[0]] + s[1..];
    }
  }

  // ----- the hello message -----

  /** What a spoke of the given rank sends first; the rank is cut to four bytes. */
  function Hello(rank: nat): (s: seq<byte>)
    ensures |s| == 8
  {
    LittleEndian(HELLO_MAGIC, 4) + LittleEndian(rank % Range(4), 4)
  }

  /** The bytes of a hello. */
  lemma HelloBytes(rank: nat)
    requires rank < 0x1_0000_0000
    ensures Hello(rank) == [0x43, 0x4e, 0x59, 0x4d, rank % 256, rank / 256 % 256, rank / 256 / 256 % 256, rank / 256 / 256 / 256]
  {
    FourBytes();
    FourLittleEndian(HELLO_MAGIC);
    FourLittleEndian(rank);
  }

  lemma FourLittleEndian(v: nat)
    requires v < 0x1_0000_0000
    ensures LittleEndian(v, 4) == [v % 256, v / 256 % 256, v / 256 / 256 % 256, v / 256 / 256 / 256]
  {
    var (a, b, c) := (v / 256, v / 256 / 256, v / 256 / 256 / 256);
    assert LittleEndian(c, 1) == [c % 256] + LittleEndian(c / 256, 0);
    assert LittleEndian(b, 2) == [b % 256] + LittleEndian(c, 1);
    assert LittleEndian(a, 3) == [a % 256] + LittleEndian(b, 2);
    assert LittleEndian(v, 4) == [v % 256] + LittleEndian(a, 3);
  }

  /** What the hub makes of the first bytes of a stream. */
  function ReadHello(s: seq<byte>): Option<nat> {
    if |s| < 8 then None
    else if FromLittleEndian(s[..4]) != HELLO_MAGIC then None
    else Some(FromLittleEndian(s[4..8]))
  }

  lemma FourBytes()
    ensures Range(4) == 0x1_0000_0000
  {
    assert Range(2) == 0x1_0000;
    assert Range(3) == 0x100_0000;
  }

  /** The hub reads a rank from a stream exactly when the stream starts with that rank's hello. */
  lemma HelloRead(s: seq<byte>, rank: nat)
    requires rank < Range(4)
    ensures ReadHello(s) == Some(rank) <==> Hello(rank) <= s
  {
    FourBytes();
    hide LittleEndian, FromLittleEndian, Range;
    assert rank % Range(4) == rank;
    if |s| >= 8 {
      SplitAt(s, LittleEndian(HELLO_MAGIC, 4), LittleEndian(rank, 4));
      NumberRead(s[..4], HELLO_MAGIC, 4);
      NumberRead(s[4..8], rank, 4);
    }
  }

  /** A number is read exactly from its own encoding. */
  lemma NumberRead(s: seq<byte>, v: nat, n: nat)
    requires |s| == n && v < Range(n)
    ensures FromLittleEndian(s) == v <==> s == LittleEndian(v, n)
  {
    NumberRoundTrip(v, n);
    BytesRoundTrip(s);
  }

  lemma SplitAt(s: seq<byte>, a: seq<byte>, b: seq<byte>)
    requires |s| >= 8 && |a| == |b| == 4
    ensures a + b <= s <==> s[..4] == a && s[4..8] == b
  {
    assert s[..8] == s[..4] + s[4..8];
    if a + b <= s {
      assert s[..4] == (a + b)[..4] == a && s[4..8] == (a + b)[4..] == b;
    }
    if s[..4] == a && s[4..8] == b {
      assert s[..8] == a + b;
    }
  }

  // ----- frames -----

  function Frame(tag: byte, payload: seq<byte>): (s: seq<byte>)
    ensures |s| == 9 + |payload|
  {
    [tag] + LittleEndian(|payload|, 8) + payload
  }

  /** The bytes of a frame: its tag, 1 for an all-reduce and 2 for a barrier, the length of its
      payload, least significant byte first, and the payload. */
  lemma FrameBytes(tag: byte, payload: seq<byte>, i: nat)
    requires i < 8
    ensures Frame(tag, payload)[0] == tag && Frame(tag, payload)[1 + i] == |payload| / Range(i) % 256 && Frame(tag, payload)[9..] == payload
    ensures TAG_ALL_REDUCE == 1 && TAG_BARRIER == 2
  {
    ByteOrder(|payload|, 8, i);
    hide LittleEndian;
  }

  /** The payload and what follows it, if the stream starts with a frame of the expected tag
      and length. */
  function ReadFrame(s: seq<byte>, tag: byte, length: nat): (r: Option<(seq<byte>, seq<byte>)>)
    ensures r.Some? ==> |r.value.0| == length
  {
    if |s| < 9 then None
    else if s[0] != tag || FromLittleEndian(s[1..9]) != length then None
    else if |s| < 9 + length then None
    else Some((s[9..9 + length], s[9 + length..]))
  }

  /** A read succeeds exactly on the frames that a write with the same tag and length makes, and
      takes the frame and nothing more off the stream. */
  lemma FrameRead(s: seq<byte>, tag: byte, payload: seq<byte>, rest: seq<byte>)
    requires |payload| < Range(8)
    ensures ReadFrame(s, tag, |payload|) == Some((payload, rest)) <==> s == Frame(tag, payload) + rest
  {
    hide LittleEndian, FromLittleEndian, Range;
    var n := |payload|;
    if |s| >= 9 + n {
      NumberRead(s[1..9], n, 8);
      FrameParts(s, tag, payload, rest);
    }
  }

  lemma FrameParts(s: seq<byte>, tag: byte, payload: seq<byte>, rest: seq<byte>)
    requires |s| >= 9 + |payload|
    ensures var n := |payload|;
            s == Frame(tag, payload) + rest <==>
              s[0] == tag && s[1..9] == LittleEndian(n, 8) && s[9..9 + n] == payload && s[9 + n..] == rest
  {
    hide LittleEndian;
    var n := |payload|;
    assert s == [s[0]] + s[1..9] + s[9..9 + n] + s[9 + n..];
    var whole := Frame(tag, payload) + rest;
    assert whole[1..9] == LittleEndian(n, 8) && whole[9..9 + n] == payload && whole[9 + n..] == rest;
  }

  /** Two different frames never read as each other, so a read of the wrong kind is refused. */
  lemma FrameMismatch(tag: byte, payload: seq<byte>, rest: seq<byte>, tag': byte, length: nat)
    requires |payload| < Range(8)
    ensures ReadFrame(Frame(tag, payload) + rest, tag', length).Some? <==> tag == tag' && |payload| == length
  {
    NumberRoundTrip(|payload|, 8);
    hide LittleEndian, FromLittleEndian, Range;
    var s := Frame(tag, payload) + rest;
    assert s[1..9] == LittleEndian(|payload|, 8);
  }
}
