/** Row-major element numbers and the storage offsets a dims/strides pair gives them. */
module Layout {
  import opened Arithmetic

  /** An axis length.  Zero-length axes are outside the model. */
  type dim = d: nat | 1 <= d witness 1

  function Prod(dims: seq<dim>): dim {
    if dims == [] then 1
    else
      MulPositive(Prod(dims[..|dims| - 1]), dims[|dims| - 1]);
      Prod(dims[..|dims| - 1]) * dims[|dims| - 1]
  }

  /** The storage offset of the k-th element in row-major order (the innermost axis is
      the last one).  Digits beyond the outermost axis are dropped. */
  function Offset(dims: seq<dim>, strides: seq<nat>, k: nat): nat
    requires |dims| == |strides|
  {
    if dims == [] then 0
    else
      var n := |dims| - 1;
      Offset(dims[..n], strides[..n], k / dims[n]) + k % dims[n] * strides[n]
  }

  /** Both layouts put each of the first `Prod(dims)` elements at the same offset. */
  ghost predicate SameOffsets(dims: seq<dim>, strides: seq<nat>, dims': seq<dim>, strides': seq<nat>)
    requires |dims| == |strides| && |dims'| == |strides'|
  {
    forall k: nat :: k < Prod(dims) ==> Offset(dims, strides, k) == Offset(dims', strides', k)
  }

  // ----- one axis at a time -----

  lemma ProdAppend(a: seq<dim>, c: dim)
    ensures Prod(a + [c]) == Prod(a) * c
  {
    assert (a + [c])[..|a|] == a;
  }

  lemma OffsetAppend(a: seq<dim>, b: seq<nat>, c: dim, e: nat, k: nat)
    requires |a| == |b|
    ensures Offset(a + [c], b + [e], k) == Offset(a, b, k / c) + k % c * e
  {
    assert (a + [c])[..|a|] == a && (b + [e])[..|b|] == b;
  }

  lemma {:induction false} ProdConcat(a: seq<dim>, c: seq<dim>)
    ensures Prod(a + c) == Prod(a) * Prod(c)
  {
    if c == [] {
      assert a + c == a;
    } else {
      var n := |c| - 1;
      assert a + c == (a + c[..n]) + [c[n]];
      ProdAppend(a + c[..n], c[n]);
      ProdConcat(a, c[..n]);
      Associate(Prod(a), Prod(c[..n]), c[n]);
    }
  }

  /** A layout reads its inner axes from k and its outer axes from the quotient. */
  lemma {:induction false} OffsetConcat(a: seq<dim>, b: seq<nat>, c: seq<dim>, e: seq<nat>, k: nat)
    requires |a| == |b| && |c| == |e|
    ensures Offset(a + c, b + e, k) == Offset(a, b, k / Prod(c)) + Offset(c, e, k)
  {
    if c == [] {
      assert a + c == a && b + e == b;
    } else {
      var n := |c| - 1;
      assert a + c == (a + c[..n]) + [c[n]] && b + e == (b + e[..n]) + [e[n]];
      OffsetAppend(a + c[..n], b + e[..n], c[n], e[n], k);
      OffsetConcat(a, b, c[..n], e[..n], k / c[n]);
      DivModTwice(k, Prod(c[..n]), c[n]);
    }
  }

  /** One axis of length a * b is two axes, the outer one with the longer stride. */
  lemma AxisSplit(a: dim, b: dim, e: nat, k: nat)
    requires 1 <= a * b
    ensures Offset([a * b], [e], k) == Offset([a, b], [b * e, e], k)
  {
    OffsetAppend([], [], a * b, e, k);
    OffsetAppend([a], [b * e], b, e, k);
    OffsetAppend([], [], a, b * e, k / b);
    assert [] + [a * b] == [a * b] && [] + [e] == [e];
    assert [] + [a] == [a] && [] + [b * e] == [b * e];
    assert [a] + [b] == [a, b] && [b * e] + [e] == [b * e, e];
    hide Offset, Prod;
    DivModTwice(k, a, b);
    TwoDigitsScaled(k / b % a, b, k % b, e);
  }

  lemma TwoDigitsScaled(x: nat, b: nat, y: nat, e: nat)
    ensures (x * b + y) * e == x * (b * e) + y * e
  {
    Distribute(x * b, y, e);
    Associate(x, b, e);
  }

  lemma SplitInnermost(a: seq<dim>, b: seq<nat>, p: dim, q: dim, e: nat, k: nat)
    requires |a| == |b| && 1 <= p * q
    ensures Offset(a + [p * q], b + [e], k) == Offset(a + [p, q], b + [q * e, e], k)
  {
    OffsetConcat(a, b, [p * q], [e], k);
    OffsetConcat(a, b, [p, q], [q * e, e], k);
    AxisSplit(p, q, e, k);
    ProdPair(p, q);
  }

  lemma ProdPair(p: dim, q: dim)
    requires 1 <= p * q
    ensures Prod([p * q]) == Prod([p, q])
  {
    ProdAppend([], p * q);
    ProdAppend([p], q);
    ProdAppend([], p);
    assert [] + [p * q] == [p * q] && [p] + [q] == [p, q] && [] + [p] == [p];
  }

  /** Splitting or joining an axis in the middle of a layout changes no offset. */
  lemma SplitWithin(a: seq<dim>, b: seq<nat>, p: dim, q: dim, e: nat, c: seq<dim>, g: seq<nat>, k: nat)
    requires |a| == |b| && |c| == |g| && 1 <= p * q
    ensures Offset(a + [p * q] + c, b + [e] + g, k) == Offset(a + [p, q] + c, b + [q * e, e] + g, k)
  {
    OffsetConcat(a + [p * q], b + [e], c, g, k);
    OffsetConcat(a + [p, q], b + [q * e, e], c, g, k);
    SplitInnermost(a, b, p, q, e, k / Prod(c));
  }

  lemma {:induction false} OffsetOfMultiple(c: seq<dim>, e: seq<nat>, m: nat)
    requires |c| == |e|
    ensures Offset(c, e, m * Prod(c)) == 0
  {
    if c != [] {
      var n := |c| - 1;
      Associate(m, Prod(c[..n]), c[n]);
      ModOfMultiple(m * Prod(c[..n]), c[n]);
      OffsetOfMultiple(c[..n], e[..n], m);
    }
  }

  /** Multiples of the inner size see only the outer axes. */
  lemma OuterOnly(a: seq<dim>, b: seq<nat>, c: seq<dim>, e: seq<nat>, m: nat)
    requires |a| == |b| && |c| == |e|
    ensures Offset(a + c, b + e, m * Prod(c)) == Offset(a, b, m)
  {
    OffsetConcat(a, b, c, e, m * Prod(c));
    OffsetOfMultiple(c, e, m);
    ModOfMultiple(m, Prod(c));
  }

  /** Within its own length the innermost axis is an arithmetic progression. */
  lemma InnermostRun(a: seq<dim>, b: seq<nat>, c: dim, e: nat, m: nat)
    requires |a| == |b| && m < c
    ensures Offset(a + [c], b + [e], m) == m * e
  {
    OffsetAppend(a, b, c, e, m);
    DivModUnique(m, c, 0, m);
    assert Offset(a, b, 0) == 0 by { OffsetOfMultiple(a, b, 0); }
  }

  /** The first element beyond the innermost axis is one step of the next axis. */
  lemma NextAxis(a: seq<dim>, b: seq<nat>, c: dim, e: nat)
    requires |a| == |b| && a != [] && 2 <= a[|a| - 1]
    ensures Offset(a + [c], b + [e], c) == b[|b| - 1]
  {
    OffsetAppend(a, b, c, e, c);
    DivModUnique(c, c, 1, 0);
    OuterUnit(a, b);
  }

  lemma OuterUnit(a: seq<dim>, b: seq<nat>)
    requires |a| == |b| && a != [] && 2 <= a[|a| - 1]
    ensures Offset(a, b, 1) == b[|b| - 1]
  {
    var n := |a| - 1;
    assert a == a[..n] + [a[n]] && b == b[..n] + [b[n]];
    InnermostRun(a[..n], b[..n], a[n], b[n], 1);
  }

  /** Moving by the size of the axes inside one axis, without a carry, costs its stride. */
  lemma AxisStep(a: seq<dim>, b: seq<nat>, t: dim, e: nat, c: seq<dim>, g: seq<nat>, x: nat)
    requires |a| == |b| && |c| == |g|
    requires x + Prod(c) < t * Prod(c)
    ensures Offset(a + [t] + c, b + [e] + g, x + Prod(c)) == Offset(a + [t] + c, b + [e] + g, x) + e
  {
    var u := Prod(c);
    OffsetConcat(a + [t], b + [e], c, g, x);
    OffsetConcat(a + [t], b + [e], c, g, x + u);
    QuotientStep(x, u, t);
    InnermostRun(a, b, t, e, x / u);
    InnermostRun(a, b, t, e, x / u + 1);
    Distribute(x / u, 1, e);
    SameRemainder(c, g, x, x + u);
  }

  /** An offset depends only on the element number modulo the size. */
  lemma {:induction false} SameRemainder(c: seq<dim>, g: seq<nat>, x: nat, y: nat)
    requires |c| == |g| && x % Prod(c) == y % Prod(c)
    ensures Offset(c, g, x) == Offset(c, g, y)
  {
    if c != [] {
      var n := |c| - 1;
      var p := Prod(c[..n]);
      DivModTwice(x, p, c[n]);
      DivModTwice(y, p, c[n]);
      DivModUnique(x % Prod(c), c[n], x / c[n] % p, x % c[n]);
      DivModUnique(y % Prod(c), c[n], y / c[n] % p, y % c[n]);
      SameRemainder(c[..n], g[..n], x / c[n], y / c[n]);
    }
  }
}
