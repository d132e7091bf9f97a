/** Single-precision bit patterns, their values over the reals, and rounding to bfloat16 with
    ties to even (roundTiesToEven, section 4.3.1 of IEEE 754-2019). */
module Bfloat16 {
  /** 2 to the power k. */
  function Pow2(k: int): (r: real)
    ensures r > 0.0
    decreases if k < 0 then -k else k
  {
    if k == 0 then 1.0 else if k > 0 then 2.0 * Pow2(k - 1) else Pow2(k + 1) / 2.0
  }

  lemma Pow2Doubles(k: int)
    ensures Pow2(k + 1) == 2.0 * Pow2(k)
  {
  }

  lemma {:induction false} Pow2Grows(a: int, b: int)
    requires a <= b
    ensures Pow2(a) <= Pow2(b)
    decreases b - a
  {
    if a < b {
      Pow2Grows(a, b - 1);
      Pow2Doubles(b - 1);
    }
  }

  const MANTISSA: nat := 0x80_0000
  const LOW: nat := 0x1_0000

  function Exponent(bits: nat): nat {
    bits / MANTISSA % 256
  }

  /** Positive, not zero, subnormal, infinite or not a number. */
  predicate Normal(bits: nat) {
    MANTISSA <= bits < 255 * MANTISSA
  }

  /** The distance of n units. */
  function Units(n: nat, u: real): (r: real)
    requires u > 0.0
    ensures r >= 0.0
    ensures n > 0 ==> r > 0.0
  {
    n as real * u
  }

  lemma UnitsAdd(a: nat, b: nat, u: real)
    requires u > 0.0
    ensures Units(a + b, u) == Units(a, u) + Units(b, u)
  {
    assert (a + b) as real == a as real + b as real;
  }

  lemma UnitsDouble(n: nat, u: real)
    requires u > 0.0
    ensures Units(n, 2.0 * u) == Units(2 * n, u)
  {
    assert (2 * n) as real == 2.0 * n as real;
  }

  lemma FewerUnits(a: nat, b: nat, u: real)
    requires a < b && u > 0.0
    ensures Units(a, u) < Units(b, u)
  {
    UnitsAdd(a, b - a, u);
  }

  lemma SmallerUnits(n: nat, u: real, v: real)
    requires 0.0 < u <= v
    ensures Units(n, u) <= Units(n, v)
  {
    assert Units(n, v) == Units(n, u) + n as real * (v - u);
  }

  /** The value of a positive normal pattern: 24 significant bits, the first one implied. */
  function Value(bits: nat): (r: real)
    requires Normal(bits)
    ensures r > 0.0
  {
    Units(MANTISSA + bits % MANTISSA, Pow2(bits / MANTISSA - 150))
  }

  /** The pattern of 1, the effect of one more in the exponent, and that of the 23 bits below it. */
  lemma ValueMeans(exponent: nat, fraction: nat)
    requires 1 <= exponent < 255 && fraction < MANTISSA
    ensures Value(0x3F80_0000) == 1.0
    ensures exponent < 254 ==> Value((exponent + 1) * MANTISSA + fraction) == 2.0 * Value(exponent * MANTISSA + fraction)
    ensures Value(exponent * MANTISSA + fraction) * MANTISSA as real == Value(exponent * MANTISSA) * (MANTISSA + fraction) as real
  {
    hide Pow2, Units;
    var bits := exponent * MANTISSA;
    assert (bits + fraction) / MANTISSA == exponent && (bits + fraction) % MANTISSA == fraction;
    assert bits / MANTISSA == exponent && bits % MANTISSA == 0;
    assert (bits + MANTISSA + fraction) / MANTISSA == exponent + 1 && (bits + MANTISSA + fraction) % MANTISSA == fraction;
    Pow2Doubles(exponent - 150);
    OneIsOne();
    UnitsDouble(MANTISSA + fraction, Pow2(exponent - 150));
    UnitsAdd(MANTISSA + fraction, MANTISSA + fraction, Pow2(exponent - 150));
    Proportional(MANTISSA, MANTISSA + fraction, Pow2(exponent - 150));
  }

  lemma Proportional(a: nat, b: nat, u: real)
    requires u > 0.0
    ensures Units(b, u) * a as real == Units(a, u) * b as real
  {
    var x, y := a as real, b as real;
    Associates(x, y, u, x * u, y * u);
  }

  lemma Associates(x: real, y: real, u: real, xu: real, yu: real)
    requires xu == x * u && yu == y * u
    ensures yu * x == xu * y
  {
  }

  lemma OneIsOne()
    ensures Value(0x3F80_0000) == 1.0
  {
    assert IntPow2(8) == 0x100;
    assert IntPow2(16) == 0x1_0000;
    assert IntPow2(23) == MANTISSA;
    hide Pow2, IntPow2, Units;
    HalvedTimes(23);
    assert 0x3F80_0000 / MANTISSA == 127 && 0x3F80_0000 % MANTISSA == 0;
  }

  function IntPow2(k: nat): (r: nat)
    ensures r > 0
  {
    if k == 0 then 1 else 2 * IntPow2(k - 1)
  }

  lemma {:induction false} HalvedTimes(k: nat)
    ensures Units(IntPow2(k), Pow2(-(k as int))) == 1.0
  {
    if k > 0 {
      HalvedTimes(k - 1);
      Pow2Doubles(-(k as int));
      UnitsDouble(IntPow2(k - 1), Pow2(-(k as int)));
    }
  }

  /** One unit in the last place at a pattern. */
  function Ulp(bits: nat): (r: real)
    ensures r > 0.0
  {
    Pow2(bits / MANTISSA - 150)
  }

  predicate IsNan(bits: nat) {
    Exponent(bits) == 255 && bits % MANTISSA != 0
  }

  /** The code's conversion of a 32-bit pattern to the upper 16 bits. */
  function ToBf16Bits(bits: nat): (r: nat)
    ensures r < LOW
  {
    if IsNan(bits) then 0x7FC0
    else
      var roundingBias := 0x7FFF + bits / LOW % 2;
      (bits + roundingBias) / LOW % LOW
  }

  /** The pattern whose upper 16 bits are h. */
  function Widened(h: nat): nat {
    h * LOW
  }

  /** A stretch of 65536 patterns lies in one binade, so values there are evenly spaced, up to and
      with the first pattern of the next stretch. */
  lemma EvenlySpaced(high: nat, low: nat)
    requires Normal(Widened(high)) && low <= LOW && Normal(Widened(high) + low)
    ensures Value(Widened(high) + low) == Value(Widened(high)) + Units(low, Ulp(Widened(high)))
    ensures Units(MANTISSA, Ulp(Widened(high))) <= Value(Widened(high))
  {
    var start := Widened(high);
    var e, m := start / MANTISSA, start % MANTISSA;
    assert start == e * MANTISSA + m && m % LOW == 0;
    assert m + LOW <= MANTISSA;
    var u := Pow2(e - 150);
    UnitsAdd(MANTISSA + m, low, u);
    UnitsAdd(MANTISSA, m, u);
    hide Units, Pow2;
    if m + low < MANTISSA {
      assert (start + low) / MANTISSA == e && (start + low) % MANTISSA == m + low;
    } else {
      assert (start + low) / MANTISSA == e + 1 && (start + low) % MANTISSA == 0;
      Pow2Doubles(e - 150);
      UnitsDouble(MANTISSA, u);
    }
  }

  /** A value lies in the binade of its exponent. */
  lemma InBinade(bits: nat)
    requires Normal(bits)
    ensures var e := bits / MANTISSA - 150;
            Units(MANTISSA, Pow2(e)) <= Value(bits) < Units(MANTISSA, Pow2(e + 1))
  {
    hide Units;
    var u, m := Pow2(bits / MANTISSA - 150), bits % MANTISSA;
    Pow2Doubles(bits / MANTISSA - 150);
    UnitsDouble(MANTISSA, u);
    UnitsAdd(MANTISSA, m, u);
    FewerUnits(MANTISSA + m, 2 * MANTISSA, u);
  }

  /** Larger patterns are larger values. */
  lemma ValueGrows(a: nat, b: nat)
    requires Normal(a) && Normal(b) && a < b
    ensures Value(a) < Value(b)
  {
    hide Units;
    var ea, eb := a / MANTISSA, b / MANTISSA;
    assert ea <= eb;
    if ea < eb {
      InBinade(a);
      InBinade(b);
      Pow2Grows(ea + 1 - 150, eb - 150);
      SmallerUnits(MANTISSA, Pow2(ea + 1 - 150), Pow2(eb - 150));
    } else {
      assert a % MANTISSA < b % MANTISSA;
      FewerUnits(MANTISSA + a % MANTISSA, MANTISSA + b % MANTISSA, Pow2(ea - 150));
    }
  }

  predicate RoundsUp(high: nat, low: nat) {
    low > 0x8000 || (low == 0x8000 && high % 2 == 1)
  }

  /** The conversion takes the upper half, plus one when the lower half is more than half a unit,
      or exactly half of an odd one. */
  lemma ConversionRounds(high: nat, low: nat)
    requires Normal(Widened(high) + low) && low < LOW
    ensures ToBf16Bits(Widened(high) + low) == if RoundsUp(high, low) then high + 1 else high
  {
    var bits := high * LOW + low;
    assert bits / LOW == high && bits % LOW == low;
  }

  function Distance(x: real, y: real): (r: real)
    ensures r >= 0.0
  {
    if x < y then y - x else x - y
  }

  /** Half a stretch, and which end of it is nearer. */
  lemma Halves(low: nat, u: real)
    requires low < LOW && u > 0.0
    ensures 0.0 <= Units(low, u) < Units(LOW, u) == 2.0 * Units(0x8000, u)
    ensures low < 0x8000 ==> Units(low, u) < Units(0x8000, u)
    ensures low == 0x8000 ==> Units(low, u) == Units(0x8000, u)
    ensures low > 0x8000 ==> Units(low, u) > Units(0x8000, u)
    ensures Units(MANTISSA, u) == 256.0 * Units(0x8000, u)
  {
    hide Units;
    UnitsAdd(0x8000, 0x8000, u);
    FewerUnits(low, LOW, u);
    if low < 0x8000 {
      FewerUnits(low, 0x8000, u);
    } else if low > 0x8000 {
      FewerUnits(0x8000, low, u);
    }
    Stretches(u);
  }

  lemma Stretches(u: real)
    requires u > 0.0
    ensures Units(MANTISSA, u) == 256.0 * Units(0x8000, u)
  {
    assert MANTISSA as real == 256.0 * 32768.0;
  }

  /** A pattern between the two nearest 16-bit ones. */
  lemma Between(high: nat, low: nat)
    requires Normal(Widened(high) + low) && low < LOW
    ensures Normal(Widened(high))
    ensures var u, base := Ulp(Widened(high)), Value(Widened(high));
            && Value(Widened(high) + low) == base + Units(low, u) && base >= 256.0 * Units(0x8000, u)
            && (Normal(Widened(high + 1)) ==> Value(Widened(high + 1)) == base + 2.0 * Units(0x8000, u))
  {
    var u := Ulp(Widened(high));
    EvenlySpaced(high, low);
    Halves(low, u);
    assert Widened(high + 1) == Widened(high) + LOW;
    if Normal(Widened(high + 1)) {
      EvenlySpaced(high, LOW);
    }
  }

  /** The conversion is off by at most half a unit of the upper 16 bits, so by at most 1/256 of
      the value. */
  lemma ConversionError(bits: nat)
    requires Normal(bits) && Normal(Widened(ToBf16Bits(bits)))
    ensures Distance(Value(bits), Value(Widened(ToBf16Bits(bits)))) <= Value(bits) / 256.0
  {
    var high, low := bits / LOW, bits % LOW;
    assert bits == Widened(high) + low;
    ConversionRounds(high, low);
    Between(high, low);
    Halves(low, Ulp(Widened(high)));
    hide Units, Value, Ulp, ToBf16Bits, Normal, Widened;
  }

  /** Round to nearest, ties to even: no 16-bit pattern is closer, and if another one is as close
      the result is even. */
  lemma ConversionIsNearest(bits: nat, h: nat)
    requires Normal(bits) && Normal(Widened(ToBf16Bits(bits))) && Normal(Widened(h))
    ensures var r := ToBf16Bits(bits);
            var near, far := Distance(Value(bits), Value(Widened(r))), Distance(Value(bits), Value(Widened(h)));
            near <= far && (near == far && h != r ==> r % 2 == 0)
  {
    var high, low := bits / LOW, bits % LOW;
    assert bits == Widened(high) + low;
    ConversionRounds(high, low);
    hide Value, ToBf16Bits, Normal, Widened, Distance;
    RoundedIsNearest(high, low, h);
    Parity(high);
  }

  lemma Parity(high: nat)
    ensures high % 2 == 1 ==> (high + 1) % 2 == 0
  {
  }

  /** The end of the stretch that the conversion takes is nearest, and only half way another
      pattern is as near. */
  lemma RoundedIsNearest(high: nat, low: nat, h: nat)
    requires low < LOW && Normal(Widened(high) + low) && Normal(Widened(h))
    requires Normal(Widened(if RoundsUp(high, low) then high + 1 else high))
    ensures var r, x := if RoundsUp(high, low) then high + 1 else high, Value(Widened(high) + low);
            var near, far := Distance(x, Value(Widened(r))), Distance(x, Value(Widened(h)));
            near <= far && (near == far && h != r ==> low == 0x8000)
  {
    var up := RoundsUp(high, low);
    Between(high, low);
    var u := Ulp(Widened(high));
    Halves(low, u);
    EndsApart(high, h);
    SameValue(if up then high + 1 else high, h);
    hide Units, Value, Ulp, Normal, Widened, Distance;
    NearestEnd(Value(Widened(high)), Units(low, u), Units(0x8000, u), Value(Widened(h)), up);
  }

  /** Of a stretch's two ends one is nearest; only in the middle another value is as near. */
  lemma NearestEnd(base: real, part: real, half: real, x: real, up: bool)
    requires 0.0 <= part < 2.0 * half && (x <= base || base + 2.0 * half <= x)
    requires if up then half <= part else part <= half
    ensures var end := if up then base + 2.0 * half else base;
            && Distance(base + part, end) <= Distance(base + part, x)
            && (Distance(base + part, end) == Distance(base + part, x) && x != end ==> part == half)
  {
  }

  /** Every pattern is at or below a stretch's start, or at or above its end. */
  lemma EndsApart(high: nat, h: nat)
    requires Normal(Widened(high)) && Normal(Widened(h))
    ensures Value(Widened(h)) <= Value(Widened(high)) || (Normal(Widened(high + 1)) && Value(Widened(high + 1)) <= Value(Widened(h)))
  {
    Ordered(h, high);
    if high < h {
      NextIsNormal(high, h);
      Ordered(high + 1, h);
    }
  }

  lemma SameValue(a: nat, b: nat)
    requires Normal(Widened(a)) && Normal(Widened(b))
    ensures Value(Widened(a)) == Value(Widened(b)) ==> a == b
  {
    Ordered(a, b);
    Ordered(b, a);
  }

  lemma Ordered(a: nat, b: nat)
    requires Normal(Widened(a)) && Normal(Widened(b))
    ensures a < b ==> Value(Widened(a)) < Value(Widened(b))
  {
    if a < b {
      ValueGrows(Widened(a), Widened(b));
    }
  }

  lemma NextIsNormal(high: nat, h: nat)
    requires Normal(Widened(high)) && Normal(Widened(h)) && high < h
    ensures Normal(Widened(high + 1))
  {
  }

  /** A pattern that is not a number, of either sign, gives 0x7FC0, and nothing else does. */
  lemma ConversionOfNan(bits: nat)
    requires bits < 0x1_0000_0000
    ensures ToBf16Bits(bits) == 0x7FC0 <==> bits % 0x8000_0000 > 0x7F80_0000
  {
    NanIsAbove(bits);
    if !IsNan(bits) {
      NotNanRounds(bits, bits / LOW);
    }
  }

  lemma NanIsAbove(bits: nat)
    requires bits < 0x1_0000_0000
    ensures IsNan(bits) <==> bits % 0x8000_0000 > 0x7F80_0000
  {
  }

  lemma NotNanRounds(bits: nat, high: nat)
    requires bits < 0x1_0000_0000 && high == bits / LOW && !(bits % 0x8000_0000 > 0x7F80_0000)
    ensures (bits + 0x7FFF + high % 2) / LOW % LOW != 0x7FC0
  {
  }

  /** The sign bit passes through. */
  lemma ConversionKeepsSign(bits: nat)
    requires bits < 0x8000_0000 && !IsNan(bits)
    ensures ToBf16Bits(bits + 0x8000_0000) == ToBf16Bits(bits) + 0x8000
  {
    SignedParts(bits);
    NotNanBelow(bits);
    var high := bits / LOW;
    assert (high + 0x8000) % 2 == high % 2;
    SignedQuotient(bits + 0x7FFF + high % 2);
    QuotientBelow(bits + 0x7FFF + high % 2);
    assert !IsNan(bits + 0x8000_0000);
    hide IsNan, Exponent;
  }

  lemma SignedQuotient(x: nat)
    ensures (x + 0x8000_0000) / LOW == x / LOW + 0x8000
  {
  }

  lemma QuotientBelow(x: nat)
    requires x < 0x8000_0000
    ensures x / LOW < 0x8000
  {
  }

  lemma NotNanBelow(bits: nat)
    requires bits < 0x8000_0000 && !IsNan(bits)
    ensures bits <= 0x7F80_0000
  {
  }

  /** The sign bit changes no other part of a pattern. */
  lemma SignedParts(bits: nat)
    requires bits < 0x8000_0000
    ensures var other := bits + 0x8000_0000;
            other / LOW == bits / LOW + 0x8000 && other % MANTISSA == bits % MANTISSA && Exponent(other) == Exponent(bits)
  {
  }
}
