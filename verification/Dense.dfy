/** Dense types: the storage offsets of the elements are exactly 0 .. size - 1. */
module Dense {
  import opened Arithmetic
  import opened Layout
  import opened Permutations
  import opened TensorTypes

  // ----- elements as digit vectors -----

  ghost predicate Digits(dims: seq<dim>, x: seq<nat>) {
    |x| == |dims| && forall i :: 0 <= i < |x| ==> x[i] < dims[i]
  }

  function Sum(w: seq<nat>): nat {
    if w == [] then 0 else Sum(w[..|w| - 1]) + w[|w| - 1]
  }

  function Weights(x: seq<nat>, strides: seq<nat>): (w: seq<nat>)
    requires |x| == |strides|
    ensures |w| == |x|
  {
    seq(|x|, i requires 0 <= i < |x| => x[i] * strides[i])
  }

  /** The storage offset of the element with digits x. */
  function DigitOffset(x: seq<nat>, strides: seq<nat>): nat
    requires |x| == |strides|
  {
    Sum(Weights(x, strides))
  }

  function DigitsOf(dims: seq<dim>, k: nat): (x: seq<nat>)
    ensures Digits(dims, x)
  {
    if dims == [] then [] else DigitsOf(dims[..|dims| - 1], k / dims[|dims| - 1]) + [k % dims[|dims| - 1]]
  }

  function NumberOf(dims: seq<dim>, x: seq<nat>): nat
    requires |x| == |dims|
  {
    if dims == [] then 0
    else NumberOf(dims[..|dims| - 1], x[..|x| - 1]) * dims[|dims| - 1] + x[|x| - 1]
  }

  /** The last axis is the innermost: its digit counts elements one by one. */
  lemma RowMajor(dims: seq<dim>, x: seq<nat>, d: dim, r: nat)
    requires |x| == |dims|
    ensures NumberOf([], []) == 0 && NumberOf(dims + [d], x + [r]) == NumberOf(dims, x) * d + r
  {
    assert (dims + [d])[..|dims|] == dims && (x + [r])[..|x|] == x;
  }

  lemma DigitBelow(q: nat, p: nat, d: nat, x: nat)
    requires q < p && x < d
    ensures q * d + x < p * d
  {
    MulMonotone(q + 1, p, d);
    Distribute(q, 1, d);
  }

  lemma {:induction false} NumberDigits(dims: seq<dim>, x: seq<nat>)
    requires Digits(dims, x)
    ensures NumberOf(dims, x) < Prod(dims) && DigitsOf(dims, NumberOf(dims, x)) == x
  {
    if dims != [] {
      var n := |dims| - 1;
      NumberDigits(dims[..n], x[..n]);
      var q := NumberOf(dims[..n], x[..n]);
      DivModUnique(q * dims[n] + x[n], dims[n], q, x[n]);
      DigitBelow(q, Prod(dims[..n]), dims[n], x[n]);
      assert x == x[..n] + [x[n]];
    }
  }

  lemma {:induction false} DigitsNumber(dims: seq<dim>, k: nat)
    requires k < Prod(dims)
    ensures NumberOf(dims, DigitsOf(dims, k)) == k
  {
    if dims != [] {
      var n := |dims| - 1;
      var d := dims[n];
      var q, r := k / d, k % d;
      DivBound(k, Prod(dims[..n]), d);
      assert DigitsOf(dims, k)[..n] == DigitsOf(dims[..n], q) && DigitsOf(dims, k)[n] == r;
      assert k == q * d + r;
      hide Prod, DigitsOf;
      DigitsNumber(dims[..n], q);
    }
  }

  lemma {:induction false} OffsetByDigits(dims: seq<dim>, strides: seq<nat>, k: nat)
    requires |dims| == |strides|
    ensures Offset(dims, strides, k) == DigitOffset(DigitsOf(dims, k), strides)
  {
    if dims != [] {
      var n := |dims| - 1;
      OffsetByDigits(dims[..n], strides[..n], k / dims[n]);
      var x := DigitsOf(dims, k);
      assert x[..n] == DigitsOf(dims[..n], k / dims[n]);
      assert Weights(x, strides)[..n] == Weights(x[..n], strides[..n]);
    }
  }

  lemma {:induction false} SumOfMultiset(a: seq<nat>, b: seq<nat>)
    requires multiset(a) == multiset(b)
    ensures Sum(a) == Sum(b)
    decreases |a|
  {
    if a == [] {
      assert |multiset(b)| == 0;
    } else {
      var n := |a| - 1;
      var j := Counterpart(a, b);
      SumOfMultiset(a[..n], b[..j] + b[j + 1..]);
      SumWithout(b, j);
    }
  }

  lemma {:induction false} SumWithout(b: seq<nat>, j: nat)
    requires j < |b|
    ensures Sum(b) == Sum(b[..j] + b[j + 1..]) + b[j]
    decreases |b|
  {
    var n := |b| - 1;
    if j == n {
      assert b[..j] + b[j + 1..] == b[..n];
    } else {
      SumWithout(b[..n], j);
      assert (b[..j] + b[j + 1..])[..n - 1] == b[..n][..j] + b[..n][j + 1..];
    }
  }

  lemma {:induction false} ProdOfMultiset(a: seq<dim>, b: seq<dim>)
    requires multiset(a) == multiset(b)
    ensures Prod(a) == Prod(b)
    decreases |a|
  {
    if a == [] {
      assert |multiset(b)| == 0;
    } else {
      var n := |a| - 1;
      var j := Counterpart(a, b);
      ProdOfMultiset(a[..n], b[..j] + b[j + 1..]);
      ProdWithout(b, j);
    }
  }

  lemma ProdWithout(b: seq<dim>, j: nat)
    requires j < |b|
    ensures Prod(b) == Prod(b[..j] + b[j + 1..]) * b[j]
  {
    hide Prod;
    var l, r := b[..j], b[j + 1..];
    assert b == (l + [b[j]]) + r;
    ProdConcat(l + [b[j]], r);
    ProdAppend(l, b[j]);
    ProdConcat(l, r);
    Swap(Prod(l), b[j], Prod(r));
  }

  lemma Swap(a: nat, b: nat, c: nat)
    ensures a * b * c == a * c * b
  {
    Associate(a, b, c);
    Associate(a, c, b);
  }

  // ----- dense types -----

  ghost predicate Injective(t: ResolvedTensorType)
    requires t.Valid()
  {
    forall k: nat, k': nat :: k < k' < Prod(t.dims) ==> t.OffsetOf(k) != t.OffsetOf(k')
  }

  ghost predicate Covers(t: ResolvedTensorType, v: nat)
    requires t.Valid()
  {
    exists k: nat :: k < Prod(t.dims) && t.OffsetOf(k) == v
  }

  /** Offsets are a bijection from element numbers onto 0 .. size - 1, and exactly the unit
      axes have stride 0. */
  ghost predicate IsDense(t: ResolvedTensorType) {
    && t.Valid()
    && (forall i :: 0 <= i < |t.dims| ==> (t.strides[i] == 0 <==> t.dims[i] == 1))
    && Injective(t)
    && (forall k: nat :: k < Prod(t.dims) ==> t.OffsetOf(k) < Prod(t.dims))
    && (forall v: nat :: v < Prod(t.dims) ==> Covers(t, v))
  }

  lemma OneElementPerOffset(t: ResolvedTensorType, k: nat, k': nat)
    requires IsDense(t) && k < Prod(t.dims) && k' < Prod(t.dims) && t.OffsetOf(k) == t.OffsetOf(k')
    ensures k == k'
  {
  }

  lemma NewIsDense(elem: DataType, dims: seq<dim>)
    ensures IsDense(Contiguous(elem, dims))
  {
    var t := Contiguous(elem, dims);
    forall k: nat | k < Prod(dims) ensures t.OffsetOf(k) == k {
      ContiguousOffset(dims, k);
    }
    forall v: nat | v < Prod(dims) ensures Covers(t, v) {
      assert t.OffsetOf(v) == v;
    }
    ZeroAtUnits(dims);
  }

  lemma {:induction false} ZeroAtUnits(dims: seq<dim>)
    ensures forall i :: 0 <= i < |dims| ==> (ContiguousStrides(dims)[i] == 0 <==> dims[i] == 1)
  {
    if dims != [] { ZeroAtUnits(dims[1..]); }
  }

  /** One element along axis i alone. */
  lemma AxisUnit(dims: seq<dim>, strides: seq<nat>, i: nat) returns (k: nat)
    requires |dims| == |strides| && i < |dims| && 2 <= dims[i]
    ensures 1 <= k < Prod(dims) && Offset(dims, strides, k) == strides[i]
  {
    var a, b, c, e := dims[..i + 1], strides[..i + 1], dims[i + 1..], strides[i + 1..];
    k := Prod(c);
    assert dims == a + c && strides == b + e;
    assert 1 * Prod(c) == k;
    OuterOnly(a, b, c, e, 1);
    OuterUnit(a, b);
    ProdConcat(a, c);
    MulMonotone(1, Prod(a[..i]), a[i]);
    MulStrict(1, Prod(a), Prod(c));
  }

  /** Reading the same elements through other axes keeps a type dense. */
  lemma ReshapeKeepsDense(t: ResolvedTensorType, u: ResolvedTensorType)
    requires IsDense(t) && u.Valid() && SameElements(t, u)
    requires forall i :: 0 <= i < |u.dims| && u.dims[i] == 1 ==> u.strides[i] == 0
    ensures IsDense(u)
  {
    forall v: nat | v < Prod(u.dims) ensures Covers(u, v) {
      assert Covers(t, v);
      var k: nat :| k < Prod(t.dims) && t.OffsetOf(k) == v;
      assert u.OffsetOf(k) == v;
    }
    forall i | 0 <= i < |u.dims| && u.dims[i] != 1 ensures u.strides[i] != 0 {
      var k := AxisUnit(u.dims, u.strides, i);
      OffsetOfMultiple(u.dims, u.strides, 0);
      assert t.OffsetOf(0) != t.OffsetOf(k);
    }
  }

  // ----- transposition -----

  function Transpose(t: ResolvedTensorType, perm: seq<nat>): (r: ResolvedTensorType)
    requires t.Valid() && IsPermutation(perm, |t.dims|)
    ensures r.Valid()
  {
    ResolvedTensorType(t.elem, Permute(t.dims, perm), Permute(t.strides, perm))
  }

  lemma TransposedAxes(t: ResolvedTensorType, perm: seq<nat>, i: nat)
    requires t.Valid() && IsPermutation(perm, |t.dims|) && i < |perm|
    ensures var u := Transpose(t, perm);
            |u.dims| == |t.dims| && u.elem == t.elem && u.dims[i] == t.dims[perm[i]] && u.strides[i] == t.strides[perm[i]]
  {
  }

  /** The element of the transposed type that has the permuted digits of element k. */
  function Moved(t: ResolvedTensorType, perm: seq<nat>, k: nat): nat
    requires t.Valid() && IsPermutation(perm, |t.dims|)
  {
    NumberOf(Permute(t.dims, perm), Permute(DigitsOf(t.dims, k), perm))
  }

  lemma TransposeSize(t: ResolvedTensorType, perm: seq<nat>)
    requires t.Valid() && IsPermutation(perm, |t.dims|)
    ensures Prod(Transpose(t, perm).dims) == Prod(t.dims)
  {
    PermuteKeepsMultiset(t.dims, perm);
    ProdOfMultiset(Permute(t.dims, perm), t.dims);
  }

  /** Transposing moves every element number but no storage offset. */
  lemma TransposeMoves(t: ResolvedTensorType, perm: seq<nat>, k: nat)
    requires t.Valid() && IsPermutation(perm, |t.dims|)
    ensures Moved(t, perm, k) < Prod(Transpose(t, perm).dims)
    ensures Transpose(t, perm).OffsetOf(Moved(t, perm, k)) == t.OffsetOf(k)
  {
    var x, u := DigitsOf(t.dims, k), Transpose(t, perm);
    var y := Permute(x, perm);
    NumberDigits(u.dims, y);
    OffsetByDigits(t.dims, t.strides, k);
    OffsetByDigits(u.dims, u.strides, Moved(t, perm, k));
    assert Weights(y, u.strides) == Permute(Weights(x, t.strides), perm);
    PermuteKeepsMultiset(Weights(x, t.strides), perm);
    SumOfMultiset(Permute(Weights(x, t.strides), perm), Weights(x, t.strides));
  }

  lemma TransposeMovesBack(t: ResolvedTensorType, perm: seq<nat>, inv: seq<nat>, k': nat)
    requires t.Valid() && IsPermutation(perm, |t.dims|) && IsPermutation(inv, |t.dims|)
    requires forall i :: 0 <= i < |perm| ==> perm[inv[i]] == i && inv[perm[i]] == i
    requires k' < Prod(t.dims)
    ensures Transpose(Transpose(t, perm), inv) == t
    ensures var k := Moved(Transpose(t, perm), inv, k'); k < Prod(t.dims) && Moved(t, perm, k) == k'
  {
    var u := Transpose(t, perm);
    PermuteBack(t.dims, perm, inv);
    PermuteBack(t.strides, perm, inv);
    TransposeSize(t, perm);
    TransposeMoves(u, inv, k');
    var y := DigitsOf(u.dims, k');
    var x := Permute(y, inv);
    assert Digits(t.dims, x) by { assert Permute(u.dims, inv) == t.dims; }
    NumberDigits(t.dims, x);
    assert Permute(x, perm) == y;
    DigitsNumber(u.dims, k');
  }

  lemma TransposeKeepsDense(t: ResolvedTensorType, perm: seq<nat>)
    requires IsDense(t) && IsPermutation(perm, |t.dims|)
    ensures IsDense(Transpose(t, perm))
  {
    var u := Transpose(t, perm);
    var inv := Inverse(perm, |t.dims|);
    TransposeSize(t, perm);
    forall k': nat | k' < Prod(u.dims)
      ensures Moved(u, inv, k') < Prod(t.dims) && u.OffsetOf(k') == t.OffsetOf(Moved(u, inv, k'))
      ensures Moved(t, perm, Moved(u, inv, k')) == k'
    {
      TransposeMovesBack(t, perm, inv, k');
      TransposeMoves(u, inv, k');
    }
    forall v: nat | v < Prod(u.dims) ensures Covers(u, v) {
      assert Covers(t, v);
      var k: nat :| k < Prod(t.dims) && t.OffsetOf(k) == v;
      TransposeMoves(t, perm, k);
    }
    forall k': nat, k'': nat | k' < k'' < Prod(u.dims) ensures u.OffsetOf(k') != u.OffsetOf(k'') {
      var k, l := Moved(u, inv, k'), Moved(u, inv, k'');
      assert k != l by { assert Moved(t, perm, k) == k' && Moved(t, perm, l) == k''; }
      assert t.OffsetOf(k) != t.OffsetOf(l) by { if l < k { assert t.OffsetOf(l) != t.OffsetOf(k); } }
    }
  }

  // ----- what a dense type occupies -----

  /** `StorageNumElements` of the source: the largest span of an axis. */
  function StorageNumElements(t: ResolvedTensorType): nat
    requires t.Valid()
  {
    if t.dims == [] || Size(t.dims) == 1 then 1 else LargestSpan(t.dims, t.strides)
  }

  function LargestSpan(dims: seq<dim>, strides: seq<nat>): nat
    requires |dims| == |strides|
  {
    if dims == [] then 0
    else
      var rest := LargestSpan(dims[1..], strides[1..]);
      if rest < dims[0] * strides[0] then dims[0] * strides[0] else rest
  }

  /** Of any type, dense or not: one element if there are no axes or only units, else the largest
      product of an axis length and its stride. */
  lemma StorageMeans(t: ResolvedTensorType)
    requires t.Valid()
    ensures (forall i :: 0 <= i < |t.dims| ==> t.dims[i] == 1) ==> StorageNumElements(t) == 1
    ensures (exists i :: 0 <= i < |t.dims| && t.dims[i] != 1) ==> SpansUpTo(t.dims, t.strides, StorageNumElements(t))
  {
    SizeMeans(t.dims, 1);
    if t.dims != [] {
      LargestIsSpan(t.dims, t.strides);
    }
  }

  lemma {:induction false} LargestIsSpan(dims: seq<dim>, strides: seq<nat>)
    requires |dims| == |strides| && dims != []
    ensures SpansUpTo(dims, strides, LargestSpan(dims, strides))
  {
    var p := dims[0] * strides[0];
    if |dims| == 1 {
      assert LargestSpan(dims[1..], strides[1..]) == 0;
    } else {
      LargestIsSpan(dims[1..], strides[1..]);
      var q := LargestSpan(dims[1..], strides[1..]);
      var i :| 0 <= i < |dims[1..]| && dims[1..][i] * strides[1..][i] == q;
      assert dims[i + 1] * strides[i + 1] == q;
      forall j | 0 < j < |dims| ensures dims[j] * strides[j] <= q {
        assert dims[1..][j - 1] * strides[1..][j - 1] <= q;
      }
    }
  }

  ghost predicate SpansUpTo(dims: seq<dim>, strides: seq<nat>, p: nat)
    requires |dims| == |strides|
  {
    && (exists i :: 0 <= i < |dims| && dims[i] * strides[i] == p)
    && (forall i :: 0 <= i < |dims| ==> dims[i] * strides[i] <= p)
  }

  lemma {:induction false} LargestSpanIs(dims: seq<dim>, strides: seq<nat>, p: nat)
    requires |dims| == |strides|
    requires forall i :: 0 <= i < |dims| ==> dims[i] * strides[i] <= p
    ensures LargestSpan(dims, strides) <= p
    ensures (exists i :: 0 <= i < |dims| && dims[i] * strides[i] == p) ==> LargestSpan(dims, strides) == p
  {
    if dims != [] {
      forall i | 0 <= i < |dims[1..]| ensures dims[1..][i] * strides[1..][i] <= p {
        assert dims[1..][i] == dims[i + 1] && strides[1..][i] == strides[i + 1];
      }
      LargestSpanIs(dims[1..], strides[1..], p);
      if i :| 0 <= i < |dims| && dims[i] * strides[i] == p {
        if i != 0 { assert dims[1..][i - 1] * strides[1..][i - 1] == p; }
      }
    }
  }

  /** The innermost axis of a dense type may be taken to have stride 1. */
  lemma HasUnitStride(t: ResolvedTensorType) returns (i: nat)
    requires IsDense(t) && 2 <= Prod(t.dims)
    ensures i < |t.dims| && t.strides[i] == 1 && 2 <= t.dims[i]
  {
    assert Covers(t, 1);
    var k: nat :| k < Prod(t.dims) && t.OffsetOf(k) == 1;
    OffsetByDigits(t.dims, t.strides, k);
    var x := DigitsOf(t.dims, k);
    i := UnitTerm(Weights(x, t.strides));
    assert x[i] * t.strides[i] == 1;
    UnitFactors(x[i], t.strides[i]);
  }

  lemma UnitFactors(a: nat, b: nat)
    requires a * b == 1
    ensures a == 1 && b == 1
  {
    if 2 <= a && 1 <= b { MulMonotone(2, a, b); }
    if 2 <= b && 1 <= a { MulMonotone(2, b, a); }
  }

  lemma {:induction false} UnitTerm(w: seq<nat>) returns (i: nat)
    requires Sum(w) == 1
    ensures i < |w| && w[i] == 1
    decreases |w|
  {
    var n := |w| - 1;
    if w[n] == 1 { return n; }
    i := UnitTerm(w[..n]);
  }
}
