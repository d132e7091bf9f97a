/** Per-channel quantisation of weights to eight bits, over the reals: only the rounding to
    integers, of the scale to single precision and of the stored scale to bfloat16 count. */
module Quantize {
  import opened Arithmetic
  import opened Bfloat16

  function Abs(x: real): (r: real)
    ensures r >= 0.0 && (r == x || r == -x)
  {
    if x < 0.0 then -x else x
  }

  /** Nearest integer, halves away from zero. */
  function Round(x: real): int {
    if x >= 0.0 then (x + 0.5).Floor else -(0.5 - x).Floor
  }

  function Clamp(q: int): (r: int)
    ensures -128 <= r <= 127
    ensures -128 <= q <= 127 ==> r == q
  {
    if q < -128 then -128 else if q > 127 then 127 else q
  }

  /** A weight counted in steps of the scale. */
  function InSteps(x: real, scale: real): real
    requires scale > 0.0
  {
    x / scale
  }

  /** The eight-bit value of a weight. */
  function Quantized(x: real, scale: real): int
    requires scale > 0.0
  {
    Clamp(Round(InSteps(x, scale)))
  }

  /** The scale as it is stored. */
  function Stored(scaleBits: nat): real
    requires Representable(scaleBits)
  {
    Value(Widened(ToBf16Bits(scaleBits)))
  }

  /** A scale in the normal finite range, also once it is rounded. */
  predicate Representable(scaleBits: nat) {
    Normal(scaleBits) && Normal(Widened(ToBf16Bits(scaleBits)))
  }

  lemma RoundIsNear(x: real)
    ensures Distance(Round(x) as real, x) <= 0.5
    ensures -127.5 < x < 127.5 ==> -127 <= Round(x) <= 127
    ensures Round(-x) == -Round(x)
    ensures x >= 0.0 ==> x - 0.5 < Round(x) as real <= x + 0.5
  {
  }

  /** The clamp never bites, and the weight read back with the stored scale is within 255/256 of
      one step of the original. */
  lemma ReadBackError(x: real, scaleBits: nat)
    requires Representable(scaleBits) && Abs(x) < 127.5 * Value(scaleBits)
    ensures Quantized(x, Value(scaleBits)) == Round(InSteps(x, Value(scaleBits)))
    ensures -127 <= Quantized(x, Value(scaleBits)) <= 127
    ensures WithinStep(Quantized(x, Value(scaleBits)), Stored(scaleBits), x, Value(scaleBits))
  {
    ConversionError(scaleBits);
    hide Value, Normal, Widened, ToBf16Bits, Round, Quantized, Distance, Abs, InSteps, WithinStep;
    ReadBack(x, Value(scaleBits), Stored(scaleBits));
  }

  /** Reading q back with the stored scale t misses x by at most 255/256 of one step s. */
  predicate WithinStep(q: int, t: real, x: real, s: real) {
    Distance(q as real * t, x) <= s * 255.0 / 256.0
  }

  lemma ReadBack(x: real, s: real, t: real)
    requires s > 0.0 && Distance(s, t) <= s / 256.0 && Abs(x) < 127.5 * s
    ensures Quantized(x, s) == Round(InSteps(x, s)) && -127 <= Quantized(x, s) <= 127
    ensures WithinStep(Quantized(x, s), t, x, s)
  {
    QuotientInRange(x, s);
    RoundIsNear(InSteps(x, s));
    hide Round, Distance, Abs, InSteps, WithinStep;
    StepError(x, s, t, Round(InSteps(x, s)));
  }

  lemma Scaled(a: real, b: real, s: real, p: real, q: real)
    requires a <= b && s >= 0.0 && p == a * s && q == b * s
    ensures p <= q
  {
  }

  lemma QuotientInRange(x: real, s: real)
    requires s > 0.0 && Abs(x) < 127.5 * s
    ensures -127.5 < InSteps(x, s) < 127.5 && x == InSteps(x, s) * s
  {
    var y := x / s;
    assert x == y * s;
    if y >= 127.5 {
      Scaled(127.5, y, s, 127.5 * s, x);
    }
    if y <= -127.5 {
      Scaled(y, -127.5, s, x, -127.5 * s);
    }
  }

  /** Half a step from rounding the weight, and 127/256 from rounding the scale. */
  lemma StepError(x: real, s: real, t: real, q: int)
    requires s > 0.0 && -127 <= q <= 127 && Distance(s, t) <= s / 256.0
    requires x == InSteps(x, s) * s && Distance(q as real, InSteps(x, s)) <= 0.5
    ensures WithinStep(q, t, x, s)
  {
    hide InSteps;
    var y, d, n := InSteps(x, s), t - s, q as real;
    var ns, nd := n * s, n * d;
    assert n * (s + d) == ns + nd;
    assert (y + 0.5) * s == x + 0.5 * s;
    assert (y - 0.5) * s == x - 0.5 * s;
    Scaled(n, y + 0.5, s, ns, x + 0.5 * s);
    Scaled(y - 0.5, n, s, x - 0.5 * s, ns);
    ProductBound(n, d, s / 256.0, nd);
    assert n * t == ns + nd;
  }

  lemma ProductBound(n: real, d: real, e: real, nd: real)
    requires -127.0 <= n <= 127.0 && -e <= d <= e && nd == n * d
    ensures -127.0 * e <= nd <= 127.0 * e
  {
    if n >= 0.0 {
      PositiveProductBound(n, d, e, nd);
    } else {
      assert -n * d == -nd;
      PositiveProductBound(-n, d, e, -nd);
    }
  }

  lemma PositiveProductBound(n: real, d: real, e: real, nd: real)
    requires 0.0 <= n <= 127.0 && -e <= d <= e && nd == n * d
    ensures -127.0 * e <= nd <= 127.0 * e
  {
    var ne := n * e;
    Scaled(d, e, n, nd, ne);
    Scaled(-e, d, n, -ne, nd);
    Scaled(n, 127.0, e, ne, 127.0 * e);
  }

  // ----- a whole tensor -----

  function MaxAbs(row: seq<real>): (r: real)
    ensures r >= 0.0 && forall i :: 0 <= i < |row| ==> Abs(row[i]) <= r
  {
    if row == [] then 0.0
    else
      var rest, last := MaxAbs(row[..|row| - 1]), Abs(row[|row| - 1]);
      if rest < last then last else rest
  }

  function Scale(row: seq<real>): (r: real)
    ensures r > 0.0
  {
    if MaxAbs(row) == 0.0 then 1.0 else MaxAbs(row) / 127.0
  }

  function Row(data: seq<real>, ch: nat, inner: nat): (r: seq<real>)
    requires (ch + 1) * inner <= |data|
    ensures |r| == inner
  {
    Distribute(ch, 1, inner);
    data[ch * inner..(ch + 1) * inner]
  }

  /** Rounding a positive number to single precision. */
  ghost predicate Faithful(toF32: real -> nat, r: real) {
    Representable(toF32(r)) && Distance(Value(toF32(r)), r) <= r / 16777216.0
  }

  lemma RowFits(channels: nat, ch: nat, inner: nat)
    requires ch < channels
    ensures (ch + 1) * inner <= channels * inner
  {
    MulMonotone(ch + 1, channels, inner);
  }

  /** All weights of a channel lie well within the range of its scale. */
  lemma ScaleCovers(row: seq<real>, toF32: real -> nat, i: nat)
    requires Faithful(toF32, Scale(row)) && i < |row|
    ensures Abs(row[i]) < 127.5 * Value(toF32(Scale(row)))
  {
    hide Value, Representable;
    var r := Scale(row);
    assert Abs(row[i]) <= 127.0 * r;
  }

  /** The largest magnitude in a row, by a fold. */
  method LargestMagnitude(row: seq<real>) returns (max: real)
    ensures max == MaxAbs(row)
  {
    max := 0.0;
    for i := 0 to |row|
      invariant max == MaxAbs(row[..i])
    {
      assert row[..i + 1][..i] == row[..i];
      if max < Abs(row[i]) {
        max := Abs(row[i]);
      }
    }
    assert row[..|row|] == row;
  }

  ghost predicate ScalesFaithful(data: seq<real>, channels: nat, inner: nat, toF32: real -> nat)
    requires channels * inner == |data|
  {
    forall ch: nat :: ch < channels ==> ScaleFaithful(data, channels, inner, toF32, ch)
  }

  ghost predicate ScaleFaithful(data: seq<real>, channels: nat, inner: nat, toF32: real -> nat, ch: nat)
    requires ch < channels && channels * inner == |data|
  {
    RowFits(channels, ch, inner);
    Faithful(toF32, Scale(Row(data, ch, inner)))
  }

  function ScaleBits(data: seq<real>, channels: nat, inner: nat, toF32: real -> nat, ch: nat): nat
    requires ch < channels && channels * inner == |data|
  {
    RowFits(channels, ch, inner);
    toF32(Scale(Row(data, ch, inner)))
  }

  /** The scales of the channels, in single precision. */
  method Scales(data: seq<real>, channels: nat, inner: nat, toF32: real -> nat) returns (scale: array<nat>)
    requires channels * inner == |data|
    ensures fresh(scale) && scale.Length == channels
    ensures forall ch: nat :: ch < channels ==> scale[ch] == ScaleBits(data, channels, inner, toF32, ch)
  {
    scale := new nat[channels];
    for ch := 0 to channels
      invariant forall c: nat :: c < ch ==> scale[c] == ScaleBits(data, channels, inner, toF32, c)
    {
      RowFits(channels, ch, inner);
      var row := Row(data, ch, inner);
      var maxAbs := LargestMagnitude(row);
      scale[ch] := toF32(if maxAbs == 0.0 then 1.0 else maxAbs / 127.0);
    }
  }

  /** Weight i is quantised with the scale of its channel. */
  ghost predicate DoneAt(data: seq<real>, inner: nat, scale: seq<nat>, int8: seq<int>, i: nat)
    requires i < |data| && i < |int8| && inner > 0
  {
    && i / inner < |scale| && Normal(scale[i / inner])
    && int8[i] == Quantized(data[i], Value(scale[i / inner]))
  }

  method FillChannel(data: seq<real>, channels: nat, inner: nat, scale: seq<nat>, int8: array<int>, ch: nat)
    requires inner > 0 && channels * inner == |data| == int8.Length && |scale| == channels && ch < channels
    requires Normal(scale[ch])
    requires forall i: nat :: i < ch * inner ==> DoneAt(data, inner, scale, int8[..], i)
    modifies int8
    ensures forall i: nat :: i < (ch + 1) * inner ==> i < |data| && DoneAt(data, inner, scale, int8[..], i)
  {
    RowFits(channels, ch, inner);
    Distribute(ch, 1, inner);
    var base := ch * inner;
    for j := 0 to inner
      invariant forall i: nat :: i < base + j ==> DoneAt(data, inner, scale, int8[..], i)
    {
      DivModUnique(base + j, inner, ch, j);
      ghost var before := int8[..];
      int8[base + j] := Quantized(data[base + j], Value(scale[ch]));
      forall i: nat | i < base + j + 1 ensures DoneAt(data, inner, scale, int8[..], i) {
        if i < base + j {
          assert DoneAt(data, inner, scale, before, i);
        }
      }
    }
  }

  /** A weight of a channel is stored as the nearest number of steps, not clamped, and reads back
      within 255/256 of a step. */
  ghost predicate ReadsBack(data: seq<real>, channels: nat, inner: nat, toF32: real -> nat, int8: seq<int>,
                      stored: seq<nat>, ch: nat, j: nat)
    requires ch < channels && j < inner && channels * inner == |data| == |int8| && |stored| == channels
    requires ScalesFaithful(data, channels, inner, toF32) && stored[ch] == ToBf16Bits(ScaleBits(data, channels, inner, toF32, ch))
  {
    RowFits(channels, ch, inner);
    Distribute(ch, 1, inner);
    assert ScaleFaithful(data, channels, inner, toF32, ch);
    var i, bits := ch * inner + j, ScaleBits(data, channels, inner, toF32, ch);
    && -127 <= int8[i] <= 127 && WithinStep(int8[i], Value(Widened(stored[ch])), data[i], Value(bits))
    && (data[i] == 0.0 ==> int8[i] == 0) && int8[i] == Round(InSteps(data[i], Value(bits)))
  }

  lemma DoneReadsBack(data: seq<real>, channels: nat, inner: nat, toF32: real -> nat, scale: seq<nat>,
                      int8: seq<int>, stored: seq<nat>, ch: nat, j: nat)
    requires ch < channels && j < inner && channels * inner == |data| == |int8| && |stored| == |scale| == channels
    requires ScalesFaithful(data, channels, inner, toF32)
    requires scale[ch] == ScaleBits(data, channels, inner, toF32, ch) && stored[ch] == ToBf16Bits(scale[ch])
    requires forall i: nat :: i < |data| ==> DoneAt(data, inner, scale, int8, i)
    ensures ReadsBack(data, channels, inner, toF32, int8, stored, ch, j)
  {
    RowFits(channels, ch, inner);
    Distribute(ch, 1, inner);
    DivModUnique(ch * inner + j, inner, ch, j);
    var i := ch * inner + j;
    assert ScaleFaithful(data, channels, inner, toF32, ch);
    assert DoneAt(data, inner, scale, int8, i);
    assert Row(data, ch, inner)[j] == data[i];
    ScaleCovers(Row(data, ch, inner), toF32, j);
    ReadBackError(data[i], scale[ch]);
    ZeroStaysZero(Value(scale[ch]));
  }

  lemma ZeroStaysZero(scale: real)
    requires scale > 0.0
    ensures Quantized(0.0, scale) == 0
  {
  }

  ghost predicate StoredRight(data: seq<real>, channels: nat, inner: nat, toF32: real -> nat, stored: seq<nat>)
    requires channels * inner == |data|
  {
    |stored| == channels && forall ch: nat :: ch < channels ==> stored[ch] == ToBf16Bits(ScaleBits(data, channels, inner, toF32, ch))
  }

  ghost predicate AllReadBack(data: seq<real>, channels: nat, inner: nat, toF32: real -> nat, int8: seq<int>,
                      stored: seq<nat>)
    requires channels * inner == |data| == |int8| && ScalesFaithful(data, channels, inner, toF32)
    requires StoredRight(data, channels, inner, toF32, stored)
  {
    forall ch: nat, j: nat :: ch < channels && j < inner ==> ReadsBack(data, channels, inner, toF32, int8, stored, ch, j)
  }

  /** Quantises a weight tensor channel by channel; refuses tensors of less than two dimensions.
      Every weight reads back within 255/256 of one step of its channel's scale. */
  method QuantizePerChannel(shape: seq<nat>, data: seq<real>, toF32: real -> nat)
    returns (ok: bool, int8: array<int>, stored: array<nat>)
    requires |data| == Product(shape)
    requires |shape| >= 2 ==> ScalesFaithful(data, shape[0], Product(shape[1..]), toF32)
    ensures ok <==> |shape| >= 2
    ensures ok ==> int8.Length == |data| && StoredRight(data, shape[0], Product(shape[1..]), toF32, stored[..])
    ensures ok ==> AllReadBack(data, shape[0], Product(shape[1..]), toF32, int8[..], stored[..])
  {
    if |shape| < 2 {
      ok, int8, stored := false, new int[0], new nat[0];
      return;
    }
    hide ScalesFaithful, StoredRight, AllReadBack;
    int8, stored := QuantizeChannels(shape[0], Product(shape[1..]), data, toF32);
    ok := true;
  }

  method QuantizeChannels(channels: nat, inner: nat, data: seq<real>, toF32: real -> nat)
    returns (int8: array<int>, stored: array<nat>)
    requires channels * inner == |data| && ScalesFaithful(data, channels, inner, toF32)
    ensures int8.Length == |data| && StoredRight(data, channels, inner, toF32, stored[..])
    ensures AllReadBack(data, channels, inner, toF32, int8[..], stored[..])
  {
    var scale := Scales(data, channels, inner, toF32);
    int8 := FillAll(data, channels, inner, toF32, scale[..]);
    stored := StoreScales(data, channels, inner, toF32, scale[..]);
    forall ch: nat, j: nat | ch < channels && j < inner
      ensures ReadsBack(data, channels, inner, toF32, int8[..], stored[..], ch, j)
    {
      DoneReadsBack(data, channels, inner, toF32, scale[..], int8[..], stored[..], ch, j);
    }
  }

  method StoreScales(data: seq<real>, channels: nat, inner: nat, toF32: real -> nat, scale: seq<nat>)
    returns (stored: array<nat>)
    requires channels * inner == |data| && |scale| == channels
    requires forall ch: nat :: ch < channels ==> scale[ch] == ScaleBits(data, channels, inner, toF32, ch)
    ensures fresh(stored) && StoredRight(data, channels, inner, toF32, stored[..])
  {
    hide ToBf16Bits, ScaleBits;
    stored := new nat[channels];
    for ch := 0 to channels
      invariant forall c: nat :: c < ch ==> stored[c] == ToBf16Bits(ScaleBits(data, channels, inner, toF32, c))
    {
      stored[ch] := ToBf16Bits(scale[ch]);
    }
  }

  method FillAll(data: seq<real>, channels: nat, inner: nat, toF32: real -> nat, scale: seq<nat>)
    returns (int8: array<int>)
    requires channels * inner == |data| && |scale| == channels && ScalesFaithful(data, channels, inner, toF32)
    requires forall ch: nat :: ch < channels ==> scale[ch] == ScaleBits(data, channels, inner, toF32, ch)
    ensures fresh(int8) && int8.Length == |data|
    ensures inner > 0 ==> forall i: nat :: i < |data| ==> DoneAt(data, inner, scale, int8[..], i)
  {
    int8 := new int[|data|];
    if inner == 0 {
      return;
    }
    for ch := 0 to channels
      invariant forall i: nat :: i < ch * inner ==> i < |data| && DoneAt(data, inner, scale, int8[..], i)
    {
      assert ScaleFaithful(data, channels, inner, toF32, ch);
      RowFits(channels, ch, inner);
      Distribute(ch, 1, inner);
      FillChannel(data, channels, inner, scale, int8, ch);
    }
  }

  // ----- the error in terms of the weights -----

  /** The scale of a row is at most its largest magnitude over 127. */
  lemma ScaleIsSmall(row: seq<real>, m: real, i: nat)
    requires i < |row| && row[i] != 0.0 && forall j :: 0 <= j < |row| ==> -m <= row[j] <= m
    ensures Scale(row) * 127.0 <= m
  {
    MaxAbsIsLeast(row, m);
    assert Abs(row[i]) > 0.0;
  }

  /** It is exactly that, and 1 if the row is all zeros. */
  lemma ScaleIsExact(row: seq<real>, m: real)
    requires forall j :: 0 <= j < |row| ==> -m <= row[j] <= m
    requires exists j :: 0 <= j < |row| && (row[j] == m || row[j] == -m)
    ensures m == 0.0 ==> Scale(row) == 1.0
    ensures m > 0.0 ==> Scale(row) * 127.0 == m
  {
    var j :| 0 <= j < |row| && (row[j] == m || row[j] == -m);
    MaxAbsIsLeast(row, m);
    assert Abs(row[j]) <= MaxAbs(row);
  }

  lemma {:induction false} MaxAbsIsLeast(row: seq<real>, m: real)
    requires m >= 0.0 && forall j :: 0 <= j < |row| ==> -m <= row[j] <= m
    ensures MaxAbs(row) <= m
  {
    if row != [] {
      MaxAbsIsLeast(row[..|row| - 1], m);
    }
  }

  /** All weights of a channel lie between -m and m. */
  predicate ChannelBound(data: seq<real>, inner: nat, ch: nat, m: real) {
    forall i :: 0 <= i < |data| && ch * inner <= i < (ch + 1) * inner ==> -m <= data[i] <= m
  }

  /** Every weight reads back within 255/256 of a 127th of its channel's largest magnitude, but
      for the rounding of the scale to single precision: m bounds the weights of the channel. */
  lemma WeightError(data: seq<real>, channels: nat, inner: nat, toF32: real -> nat, int8: seq<int>, stored: seq<nat>,
                    ch: nat, j: nat, i: nat, m: real, e: real)
    requires channels * inner == |data| == |int8| && ScalesFaithful(data, channels, inner, toF32)
    requires StoredRight(data, channels, inner, toF32, stored) && AllReadBack(data, channels, inner, toF32, int8, stored)
    requires ch < channels && j < inner && i == ch * inner + j && m > 0.0 && ChannelBound(data, inner, ch, m)
    requires e == 255.0 / 256.0 * (1.0 + 1.0 / 16777216.0) * (m / 127.0)
    ensures i < |data| && -127 <= int8[i] <= 127 && Normal(Widened(stored[ch]))
    ensures Within(int8[i], Value(Widened(stored[ch])), data[i], e)
  {
    var row := ReadBackInRow(data, channels, inner, toF32, int8, stored, ch, j, i);
    RowBound(data, inner, ch, m);
    var t := Value(Widened(stored[ch]));
    hide *;
    OneWeightError(row, j, toF32, int8[i], t, m, e);
  }

  /** Reading q back with the scale t misses x by at most e. */
  predicate Within(q: int, t: real, x: real, e: real) {
    -e <= q as real * t - x <= e
  }

  lemma ReadBackInRow(data: seq<real>, channels: nat, inner: nat, toF32: real -> nat, int8: seq<int>, stored: seq<nat>,
                      ch: nat, j: nat, i: nat) returns (row: seq<real>)
    requires channels * inner == |data| == |int8| && ScalesFaithful(data, channels, inner, toF32)
    requires StoredRight(data, channels, inner, toF32, stored) && AllReadBack(data, channels, inner, toF32, int8, stored)
    requires ch < channels && j < inner && i == ch * inner + j
    ensures (ch + 1) * inner <= |data| && i < |data| && |stored| == channels && row == Row(data, ch, inner) && row[j] == data[i]
    ensures Faithful(toF32, Scale(row)) && Normal(Widened(stored[ch]))
    ensures -127 <= int8[i] <= 127 && (data[i] == 0.0 ==> int8[i] == 0)
    ensures WithinStep(int8[i], Value(Widened(stored[ch])), data[i], Value(toF32(Scale(row))))
  {
    RowFits(channels, ch, inner);
    Distribute(ch, 1, inner);
    row := Row(data, ch, inner);
    hide Value, Widened, ToBf16Bits, Scale, WithinStep;
    assert ReadsBack(data, channels, inner, toF32, int8, stored, ch, j);
    assert ScaleFaithful(data, channels, inner, toF32, ch);
  }

  lemma RowBound(data: seq<real>, inner: nat, ch: nat, m: real)
    requires (ch + 1) * inner <= |data| && ChannelBound(data, inner, ch, m)
    ensures forall k :: 0 <= k < inner ==> -m <= Row(data, ch, inner)[k] <= m
  {
    Distribute(ch, 1, inner);
  }

  lemma OneWeightError(row: seq<real>, j: nat, toF32: real -> nat, q: int, t: real, m: real, e: real)
    requires e == 255.0 / 256.0 * (1.0 + 1.0 / 16777216.0) * (m / 127.0)
    requires j < |row| && m > 0.0 && forall k :: 0 <= k < |row| ==> -m <= row[k] <= m
    requires Faithful(toF32, Scale(row)) && WithinStep(q, t, row[j], Value(toF32(Scale(row))))
    requires row[j] == 0.0 ==> q == 0
    ensures Within(q, t, row[j], e)
  {
    hide Value, Scale;
    if row[j] == 0.0 {
      assert q as real * t == 0.0;
    } else {
      ScaleIsSmall(row, m, j);
      StepIsSmall(Scale(row), Value(toF32(Scale(row))), m, q as real * t, row[j], e);
    }
  }

  lemma StepIsSmall(r: real, s: real, m: real, y: real, x: real, e: real)
    requires r > 0.0 && r * 127.0 <= m && Distance(s, r) <= r / 16777216.0 && Distance(y, x) <= s * 255.0 / 256.0
    requires e == 255.0 / 256.0 * (1.0 + 1.0 / 16777216.0) * (m / 127.0)
    ensures -e <= y - x <= e
  {
  }
}
