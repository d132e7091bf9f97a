/** Facts about multiplication, division and remainder of natural numbers that the
    mixed-radix arguments need one at a time. */
module Arithmetic {

  lemma MulPositive(a: nat, b: nat)
    requires 1 <= a && 1 <= b
    ensures a <= a * b && b <= a * b
  {
  }

  lemma MulMonotone(a: nat, b: nat, c: nat)
    requires a <= b
    ensures a * c <= b * c
  {
  }

  lemma MulStrict(a: nat, b: nat, c: nat)
    requires a < b && 1 <= c
    ensures a * c < b * c
  {
  }

  lemma Distribute(a: nat, b: nat, c: nat)
    ensures (a + b) * c == a * c + b * c
  {
  }

  lemma Associate(a: nat, b: nat, c: nat)
    ensures (a * b) * c == a * (b * c)
  {
  }

  /** Quotient and remainder are unique. */
  lemma DivModUnique(k: nat, d: nat, q: nat, r: nat)
    requires k == q * d + r && r < d
    ensures k / d == q && k % d == r
  {
    var q', r' := k / d, k % d;
    assert k == q' * d + r';
    if q < q' {
      MulMonotone(q + 1, q', d);
    } else if q' < q {
      MulMonotone(q' + 1, q, d);
    }
  }

  /** A two-digit number: q is the outer quotient, d and r are the digits. */
  lemma TwoDigits(k: nat, a: nat, b: nat, q: nat, d: nat, r: nat)
    requires k == (q * a + d) * b + r && d < a && r < b
    ensures 1 <= a * b && k / (a * b) == q && k % (a * b) == d * b + r
  {
    Distribute(q * a, d, b);
    Associate(q, a, b);
    MulMonotone(d + 1, a, b);
    Distribute(d, 1, b);
    DivModUnique(k, a * b, q, d * b + r);
  }

  /** Dividing twice is dividing by the product, and the two remainders are the digits
      of the remainder by the product. */
  lemma DivModTwice(k: nat, a: nat, b: nat)
    requires 1 <= a && 1 <= b
    ensures 1 <= a * b
    ensures k / b / a == k / (a * b)
    ensures k % (a * b) == (k / b % a) * b + k % b
  {
    var q, r := k / b, k % b;
    assert k == q * b + r;
    var h, l := q / a, q % a;
    assert q == h * a + l;
    TwoDigits(k, a, b, h, l, r);
  }

  lemma DivBound(k: nat, a: nat, b: nat)
    requires 1 <= b && k < a * b
    ensures k / b < a
  {
    if a <= k / b {
      MulMonotone(a, k / b, b);
    }
  }

  lemma DivExact(a: nat, b: nat)
    requires 1 <= b && a % b == 0
    ensures a / b * b == a
  {
  }

  lemma ModOfMultiple(q: nat, d: nat)
    requires 1 <= d
    ensures (q * d) % d == 0 && q * d / d == q
  {
    DivModUnique(q * d, d, q, 0);
  }

  lemma QuotientStep(x: nat, u: nat, t: nat)
    requires 1 <= u && x + u < t * u
    ensures (x + u) / u == x / u + 1 < t && (x + u) % u == x % u
  {
    Distribute(x / u, 1, u);
    DivModUnique(x + u, u, x / u + 1, x % u);
    DivBound(x + u, t, u);
  }

  /** The number of elements of a tensor of these dims. */
  function Product(dims: seq<nat>): nat {
    if dims == [] then 1 else dims[0] * Product(dims[1..])
  }
}
