/** A dense type occupies exactly as many storage elements as it has elements.  The proof
    strips the axis of stride 1 and divides the other strides by its length. */
module DenseStorage {
  import opened Arithmetic
  import opened Layout
  import opened Permutations
  import opened Reshape
  import opened ReshapeStates
  import opened TensorTypes
  import opened Dense

  /** A dense layout whose innermost axis, of length d, has stride 1. */
  ghost predicate UnitInside(dims: seq<dim>, strides: seq<nat>, d: dim) {
    |dims| == |strides| && IsDense(ResolvedTensorType(Bool, dims + [d], strides + [1]))
  }

  lemma InnerOffset(dims: seq<dim>, strides: seq<nat>, d: dim, m: nat, r: nat)
    requires |dims| == |strides| && r < d && m < Prod(dims)
    ensures m * d + r < Prod(dims + [d])
    ensures Offset(dims + [d], strides + [1], m * d + r) == Offset(dims, strides, m) + r
  {
    DivModUnique(m * d + r, d, m, r);
    OffsetAppend(dims, strides, d, 1, m * d + r);
    ProdAppend(dims, d);
    MulMonotone(m + 1, Prod(dims), d);
    Distribute(m, 1, d);
  }

  /** Two elements at the same offset are the same element. */
  lemma SameBlock(dims: seq<dim>, strides: seq<nat>, d: dim, m: nat, r: nat, m': nat, r': nat)
    requires UnitInside(dims, strides, d) && r < d && r' < d && m < Prod(dims) && m' < Prod(dims)
    requires Offset(dims, strides, m) + r == Offset(dims, strides, m') + r'
    ensures r == r'
  {
    hide Offset, Prod;
    var k, k' := m * d + r, m' * d + r';
    InnerOffset(dims, strides, d, m, r);
    InnerOffset(dims, strides, d, m', r');
    OneElementPerOffset(ResolvedTensorType(Bool, dims + [d], strides + [1]), k, k');
    DivModUnique(k, d, m, r);
    DivModUnique(k, d, m', r');
  }

  lemma CoveredBy(dims: seq<dim>, strides: seq<nat>, d: dim, v: nat) returns (m: nat, r: nat)
    requires UnitInside(dims, strides, d) && v < Prod(dims + [d])
    ensures m < Prod(dims) && r < d && Offset(dims, strides, m) + r == v
  {
    hide Prod, Offset;
    var t := ResolvedTensorType(Bool, dims + [d], strides + [1]);
    assert Covers(t, v);
    hide IsDense;
    var k: nat :| k < Prod(t.dims) && t.OffsetOf(k) == v;
    assert Offset(dims + [d], strides + [1], k) == v;
    m, r := k / d, k % d;
    ProdAppend(dims, d);
    DivBound(k, Prod(dims), d);
    OffsetAppend(dims, strides, d, 1, k);
  }

  /** The outer axes reach every multiple of d: the offsets are tiled by blocks of d. */
  lemma {:induction false} BlockAt(dims: seq<dim>, strides: seq<nat>, d: dim, q: nat) returns (m: nat)
    requires UnitInside(dims, strides, d) && q * d < Prod(dims + [d])
    ensures m < Prod(dims) && Offset(dims, strides, m) == q * d
  {
    var r;
    m, r := CoveredBy(dims, strides, d, q * d);
    if r != 0 {
      Distribute(q - 1, 1, d);
      var m' := BlockAt(dims, strides, d, q - 1);
      SameBlock(dims, strides, d, m', d - r, m, 0);
    }
  }

  lemma OuterMultiples(dims: seq<dim>, strides: seq<nat>, d: dim, m: nat)
    requires UnitInside(dims, strides, d) && m < Prod(dims)
    ensures Offset(dims, strides, m) % d == 0
    ensures Offset(dims, strides, m) / d < Prod(dims)
  {
    hide Offset, Prod;
    var v := Offset(dims, strides, m);
    assert v < Prod(dims + [d]) by {
      InnerOffset(dims, strides, d, m, 0);
      assert ResolvedTensorType(Bool, dims + [d], strides + [1]).OffsetOf(m * d + 0) == v;
    }
    var m' := BlockBelow(dims, strides, d, v);
    SameBlock(dims, strides, d, m', v % d, m, 0);
    ProdAppend(dims, d);
    DivBound(v, Prod(dims), d);
  }

  lemma BlockBelow(dims: seq<dim>, strides: seq<nat>, d: dim, v: nat) returns (m: nat)
    requires UnitInside(dims, strides, d) && v < Prod(dims + [d])
    ensures m < Prod(dims) && Offset(dims, strides, m) + v % d == v
  {
    assert v == v / d * d + v % d;
    m := BlockAt(dims, strides, d, v / d);
  }

  function Quotients(strides: seq<nat>, d: dim): (r: seq<nat>)
    ensures |r| == |strides|
  {
    seq(|strides|, i requires 0 <= i < |strides| => strides[i] / d)
  }

  lemma StrideMultiples(dims: seq<dim>, strides: seq<nat>, d: dim, i: nat)
    requires UnitInside(dims, strides, d) && i < |dims|
    ensures strides[i] == strides[i] / d * d
    ensures strides[i] / d == 0 <==> dims[i] == 1
  {
    var t := ResolvedTensorType(Bool, dims + [d], strides + [1]);
    assert t.dims[i] == dims[i] && t.strides[i] == strides[i];
    if dims[i] != 1 {
      var k := AxisUnit(dims, strides, i);
      OuterMultiples(dims, strides, d, k);
    }
    DivExact(strides[i], d);
  }

  lemma {:induction false} ScaledOffset(dims: seq<dim>, strides: seq<nat>, d: dim, m: nat)
    requires |dims| == |strides| && forall i :: 0 <= i < |dims| ==> strides[i] == strides[i] / d * d
    ensures Offset(dims, strides, m) == Offset(dims, Quotients(strides, d), m) * d
  {
    if dims != [] {
      var n := |dims| - 1;
      ScaledOffset(dims[..n], strides[..n], d, m / dims[n]);
      assert Quotients(strides, d)[..n] == Quotients(strides[..n], d);
      var x, s := m % dims[n], strides[n] / d;
      Associate(x, s, d);
      Distribute(Offset(dims[..n], Quotients(strides[..n], d), m / dims[n]), x * s, d);
    }
  }

  /** Without its innermost axis, and with the other strides divided by its length, the
      layout is dense again. */
  lemma QuotientIsDense(dims: seq<dim>, strides: seq<nat>, d: dim)
    requires UnitInside(dims, strides, d)
    ensures IsDense(ResolvedTensorType(Bool, dims, Quotients(strides, d)))
  {
    var u := ResolvedTensorType(Bool, dims, Quotients(strides, d));
    forall i | 0 <= i < |dims|
      ensures strides[i] == strides[i] / d * d
      ensures u.strides[i] == 0 <==> dims[i] == 1
    {
      StrideMultiples(dims, strides, d, i);
    }
    forall m: nat | m < Prod(dims)
      ensures Offset(dims, strides, m) == u.OffsetOf(m) * d && u.OffsetOf(m) < Prod(dims)
    {
      ScaledOffset(dims, strides, d, m);
      OuterMultiples(dims, strides, d, m);
      ModOfMultiple(u.OffsetOf(m), d);
    }
    forall v: nat | v < Prod(dims) ensures Covers(u, v) {
      ProdAppend(dims, d);
      MulStrict(v, Prod(dims), d);
      var m := BlockAt(dims, strides, d, v);
      ModOfMultiple(u.OffsetOf(m), d);
      ModOfMultiple(v, d);
    }
    forall m: nat, m': nat | m < m' < Prod(dims) ensures u.OffsetOf(m) != u.OffsetOf(m') {
      DistinctBlocks(dims, strides, d, m, m');
    }
  }

  lemma DistinctBlocks(dims: seq<dim>, strides: seq<nat>, d: dim, m: nat, m': nat)
    requires UnitInside(dims, strides, d) && m < m' < Prod(dims)
    ensures Offset(dims, strides, m) != Offset(dims, strides, m')
  {
    hide Offset, Prod;
    if Offset(dims, strides, m) == Offset(dims, strides, m') {
      InnerOffset(dims, strides, d, m, 0);
      InnerOffset(dims, strides, d, m', 0);
      OneElementPerOffset(ResolvedTensorType(Bool, dims + [d], strides + [1]), m * d + 0, m' * d + 0);
      MulStrict(m, m', d);
    }
  }

  /** In a dense type of at least two elements the largest axis span is the size. */
  lemma {:induction false} DenseSpans(t: ResolvedTensorType)
    requires IsDense(t) && 2 <= Prod(t.dims)
    ensures SpansUpTo(t.dims, t.strides, Prod(t.dims))
    decreases |t.dims|
  {
    var i := HasUnitStride(t);
    var n := |t.dims| - 1;
    var perm := MoveLast(|t.dims|, i);
    var u := Transpose(t, perm);
    TransposeKeepsDense(t, perm);
    TransposeSize(t, perm);
    var d := u.dims[n];
    UnitLastSpans(u, d);
    hide IsDense, Prod;
    SpansReordered(t.dims, t.strides, perm, u.dims, u.strides, Prod(t.dims));
  }

  /** Reordering the axes reorders what they span. */
  lemma SpansReordered(dims: seq<dim>, strides: seq<nat>, perm: seq<nat>, dims': seq<dim>, strides': seq<nat>, p: nat)
    requires |dims| == |strides| == |dims'| == |strides'| && IsPermutation(perm, |dims|)
    requires forall j :: 0 <= j < |dims| ==> dims'[j] == dims[perm[j]] && strides'[j] == strides[perm[j]]
    requires SpansUpTo(dims', strides', p)
    ensures SpansUpTo(dims, strides, p)
  {
    var j :| 0 <= j < |dims'| && dims'[j] * strides'[j] == p;
    assert dims[perm[j]] * strides[perm[j]] == p;
    forall i | 0 <= i < |dims| ensures dims[i] * strides[i] <= p {
      assert i in perm;
      var j' :| 0 <= j' < |perm| && perm[j'] == i;
      assert dims'[j'] * strides'[j'] <= p;
    }
  }

  lemma UnitLastSpans(u: ResolvedTensorType, d: dim)
    requires IsDense(u) && u.dims != [] && 2 <= d == u.dims[|u.dims| - 1] && u.strides[|u.dims| - 1] == 1
    ensures SpansUpTo(u.dims, u.strides, Prod(u.dims))
    decreases |u.dims|, 0
  {
    var n := |u.dims| - 1;
    var dims, strides := u.dims[..n], u.strides[..n];
    assert u.dims == dims + [d] && u.strides == strides + [1];
    assert UnitInside(dims, strides, d) by { SameDense(u, ResolvedTensorType(Bool, dims + [d], strides + [1])); }
    hide IsDense, UnitInside, Prod, Offset;
    if Prod(dims) == 1 {
      OneBlockSpans(dims, strides, d);
    } else {
      QuotientIsDense(dims, strides, d);
      DenseSpans(ResolvedTensorType(Bool, dims, Quotients(strides, d)));
      BlocksSpan(dims, strides, d);
    }
  }

  lemma OneBlockSpans(dims: seq<dim>, strides: seq<nat>, d: dim)
    requires |dims| == |strides| && UnitInside(dims, strides, d) && Prod(dims) == 1
    ensures SpansUpTo(dims + [d], strides + [1], Prod(dims + [d]))
  {
    OnlyUnits(dims);
    ProdAppend(dims, d);
    hide UnitInside, Prod, Offset;
    var all, steps := dims + [d], strides + [1];
    forall i | 0 <= i < |all| ensures all[i] * steps[i] <= d {
      if i < |dims| {
        StrideMultiples(dims, strides, d, i);
      }
    }
    assert all[|dims|] * steps[|dims|] == d;
  }

  /** Dividing the outer strides divides what they span. */
  lemma BlocksSpan(dims: seq<dim>, strides: seq<nat>, d: dim)
    requires |dims| == |strides| && UnitInside(dims, strides, d) && SpansUpTo(dims, Quotients(strides, d), Prod(dims))
    ensures SpansUpTo(dims + [d], strides + [1], Prod(dims + [d]))
  {
    var q, p := Quotients(strides, d), Prod(dims);
    ProdAppend(dims, d);
    forall i | 0 <= i < |dims| ensures strides[i] == q[i] * d {
      StrideMultiples(dims, strides, d, i);
    }
    hide UnitInside, Prod, Offset, Quotients;
    ScaledSpans(dims, strides, q, p, d);
  }

  /** Scaling all strides scales what they span, and an axis inside them stays below it. */
  lemma ScaledSpans(dims: seq<dim>, strides: seq<nat>, q: seq<nat>, p: nat, d: dim)
    requires |dims| == |strides| == |q| && SpansUpTo(dims, q, p) && forall i :: 0 <= i < |dims| ==> strides[i] == q[i] * d
    requires p > 0
    ensures SpansUpTo(dims + [d], strides + [1], p * d)
  {
    var all, steps := dims + [d], strides + [1];
    forall i | 0 <= i < |dims|
      ensures all[i] * steps[i] <= p * d
      ensures dims[i] * q[i] == p ==> all[i] * steps[i] == p * d
    {
      ScaledSpan(all[i], q[i], d, steps[i], p);
    }
    MulMonotone(1, p, d);
    assert all[|dims|] * steps[|dims|] == d;
    var j :| 0 <= j < |dims| && dims[j] * q[j] == p;
    assert all[j] * steps[j] == p * d;
  }

  lemma ScaledSpan(a: nat, q: nat, d: nat, stride: nat, p: nat)
    requires stride == q * d && a * q <= p
    ensures a * stride <= p * d
    ensures a * q == p ==> a * stride == p * d
  {
    Associate(a, q, d);
    MulMonotone(a * q, p, d);
  }

  lemma SameDense(t: ResolvedTensorType, u: ResolvedTensorType)
    requires IsDense(t) && t.dims == u.dims && t.strides == u.strides
    ensures IsDense(u)
  {
    assert SameElements(t, u);
    ReshapeKeepsDense(t, u);
  }

  lemma {:induction false} OnlyUnits(dims: seq<dim>)
    requires Prod(dims) == 1
    ensures forall i :: 0 <= i < |dims| ==> dims[i] == 1
  {
    if dims != [] {
      var n := |dims| - 1;
      UnitFactors(Prod(dims[..n]), dims[n]);
      OnlyUnits(dims[..n]);
    }
  }

  /** The storage count of a dense type is its element count. */
  lemma DenseStorageIsSize(t: ResolvedTensorType)
    requires IsDense(t)
    ensures StorageNumElements(t) == Prod(t.dims)
  {
    if 2 <= Prod(t.dims) {
      DenseSpans(t);
      LargestSpanIs(t.dims, t.strides, Prod(t.dims));
    }
  }

  // ----- contiguity -----

  /** What the loop of `is_contiguous` decides. */
  ghost predicate ReadsAsContiguous(t: ResolvedTensorType)
    requires t.Valid()
  {
    forall i :: 0 <= i < |t.dims| ==> t.strides[i] == 0 || t.strides[i] == Prod(t.dims[i + 1..])
  }

  method IsContiguous(t: ResolvedTensorType) returns (b: bool)
    requires t.Valid()
    ensures b <==> ReadsAsContiguous(t)
    ensures b <==> forall i :: 0 <= i < |t.dims| ==> t.strides[i] == 0 || t.strides[i] == Prod(t.dims[i + 1..])
  {
    var acc: dim := 1;
    for i := |t.strides| downto 0
      invariant acc == Prod(t.dims[i..])
      invariant forall j :: i <= j < |t.dims| ==> t.strides[j] == 0 || t.strides[j] == Prod(t.dims[j + 1..])
    {
      if t.strides[i] != 0 && t.strides[i] != acc {
        return false;
      }
      assert t.dims[i..] == [t.dims[i]] + t.dims[i + 1..];
      ProdPrepend(t.dims[i], t.dims[i + 1..]);
      MulPositive(acc, t.dims[i]);
      acc := acc * t.dims[i];
    }
    return true;
  }

  lemma {:induction false} ContiguousStrideAt(dims: seq<dim>, i: nat)
    requires i < |dims|
    ensures ContiguousStrides(dims)[i] == if dims[i] == 1 then 0 else Prod(dims[i + 1..])
  {
    if i != 0 {
      ContiguousStrideAt(dims[1..], i - 1);
      assert dims[1..][i..] == dims[i + 1..];
    }
  }

  /** A dense type passes the contiguity test exactly when its strides are those of `New`. */
  lemma DenseContiguous(t: ResolvedTensorType)
    requires IsDense(t)
    ensures ReadsAsContiguous(t) <==> t.strides == ContiguousStrides(t.dims)
  {
    forall i | 0 <= i < |t.dims|
      ensures ContiguousStrides(t.dims)[i] == if t.dims[i] == 1 then 0 else Prod(t.dims[i + 1..])
    {
      ContiguousStrideAt(t.dims, i);
    }
  }

  // ----- every type the engine builds from these operations -----

  datatype Build = Fresh(elem: DataType, dims: seq<dim>) | Transposed(from: Build, perm: seq<nat>) |
                   Viewed(from: Build, target: seq<dim>)

  /** `t` is a result of the operations named by b. */
  ghost predicate Builds(b: Build, t: ResolvedTensorType)
    decreases b
  {
    match b
    case Fresh(elem, dims) => t == Contiguous(elem, dims)
    case Transposed(from, perm) =>
      exists s :: Builds(from, s) && s.Valid() && IsPermutation(perm, |s.dims|) && t == Transpose(s, perm)
    case Viewed(from, target) =>
      exists s :: Builds(from, s) && ViewOf(s, target, t)
  }

  /** What `TryReshape` with the scaled push promises of a result. */
  ghost predicate ViewOf(s: ResolvedTensorType, target: seq<dim>, t: ResolvedTensorType) {
    && s.Valid() && t.Valid() && t.elem == s.elem && t.dims == target && SameElements(s, t)
    && forall i :: 0 <= i < |target| && target[i] == 1 ==> t.strides[i] == 0
  }

  lemma {:induction false} BuiltIsDense(b: Build, t: ResolvedTensorType)
    requires Builds(b, t)
    ensures IsDense(t)
    ensures StorageNumElements(t) == Prod(t.dims)
    ensures ReadsAsContiguous(t) <==> t.strides == ContiguousStrides(t.dims)
    decreases b
  {
    match b {
      case Fresh(elem, dims) => NewIsDense(elem, dims);
      case Transposed(from, perm) =>
        var s :| Builds(from, s) && s.Valid() && IsPermutation(perm, |s.dims|) && t == Transpose(s, perm);
        BuiltIsDense(from, s);
        TransposeKeepsDense(s, perm);
      case Viewed(from, target) =>
        var s :| Builds(from, s) && ViewOf(s, target, t);
        BuiltIsDense(from, s);
        ReshapeKeepsDense(s, t);
    }
    DenseStorageIsSize(t);
    DenseContiguous(t);
  }

  /** A reshape of a contiguous type never has to copy. */
  lemma ContiguousAlwaysViews(elem: DataType, dims: seq<dim>, target: seq<dim>)
    requires Prod(dims) == Prod(target)
    ensures CanView(Contiguous(elem, dims), target)
  {
    forall k: nat | k < Prod(dims)
      ensures Offset(dims, ContiguousStrides(dims), k) == Offset(target, ContiguousStrides(target), k)
    {
      ContiguousOffset(dims, k);
      ContiguousOffset(target, k);
    }
    assert SameElements(Contiguous(elem, dims), Contiguous(elem, target));
  }

  /** The bare push is wrong for a contiguous [4, 6] viewed as [6, 4]: the target suffix of
      4 elements ends inside the axis of 6 and does not divide it. */
  lemma BarePushFails()
    ensures CanView(Contiguous(Float(32), [4, 6]), [6, 4])
    ensures Prod([4, 6]) == Prod([6, 4]) && !WholeRuns(Contiguous(Float(32), [4, 6]), [6, 4])
  {
    LongPair(4, 6);
    LongPair(6, 4);
    ContiguousAlwaysViews(Float(32), [4, 6], [6, 4]);
    SuffixFourInSix(LongProblem(Contiguous(Float(32), [4, 6]), [6, 4]));
  }

  lemma SuffixFourInSix(p: Problem)
    requires p == Problem([4, 6], [6, 1], [6, 4]) && p.Valid()
    ensures !WholeRunAt(p, 1)
  {
    LongPair(4, 6);
    LongPair(6, 4);
    assert [6, 4][1..] == [4] && [4, 6][1..] == [6] && [4, 6][1 + 1..] == [];
    assert Prod(p.dims[1..]) == 6 && Prod(p.target[1..]) == 4 && Prod(p.dims[1 + 1..]) == 1;
    assert 6 % 4 == 2;
  }

  lemma LongPair(a: dim, b: dim)
    requires a != 1 && b != 1
    ensures Prod([a]) == a && Prod([a, b]) == a * b
    ensures ContiguousStrides([a, b]) == [b, 1]
    ensures LongAxes([a, b]) == [a, b] && LongStrides([a, b], [b, 1]) == [b, 1]
  {
    assert [a, b][..1] == [a] && [a][..0] == [] && [a, b][1..] == [b] && [b][1..] == [] && [b][..0] == [];
    assert Prod([b]) == b && ContiguousStrides([b]) == [1];
    assert LongAxes([a]) == [a];
    assert [b, 1][..1] == [b] && LongStrides([a], [b]) == [b];
  }
}
