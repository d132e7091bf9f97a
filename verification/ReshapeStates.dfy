/** The states of the reshape loop.  `Problem` is the pair of long-axis lists the loop starts
    from; `Run` is the loop's state while one source run is being used up. */
module ReshapeStates {
  import opened Arithmetic
  import opened Layout
  import opened Reshape

  datatype Problem = Problem(dims: seq<dim>, strides: seq<nat>, target: seq<dim>) {
    ghost predicate Valid() {
      |dims| == |strides| && AllLong(dims) && AllLong(target) && Prod(dims) == Prod(target)
    }
  }

  datatype Run = Run(targetDims: seq<dim>, origDims: seq<dim>, origStrides: seq<nat>,
                     cur: dim, stride: nat, target: dim, lastDim: dim, lastStride: nat)

  // ----- when pushing the bare stride is right -----

  /** Wherever a target suffix ends inside a source axis with a nonzero stride, its size
      divides the size of the source suffix starting at that axis. */
  ghost predicate WholeRunAt(p: Problem, j: nat)
    requires p.Valid() && j <= |p.target|
  {
    forall i :: 0 <= i < |p.dims| && Prod(p.dims[i + 1..]) < Prod(p.target[j..]) <= Prod(p.dims[i..]) ==>
                  p.strides[i] == 0 || Prod(p.dims[i..]) % Prod(p.target[j..]) == 0
  }

  ghost predicate WholeRunsFrom(p: Problem, lo: nat)
    requires p.Valid()
  {
    forall j :: lo <= j < |p.target| ==> WholeRunAt(p, j)
  }

  lemma SuffixMonotone(d: seq<dim>, i: nat, i': nat)
    requires i <= i' <= |d|
    ensures Prod(d[i'..]) <= Prod(d[i..])
  {
    assert d[i..] == d[i..i'] + d[i'..];
    ProdConcat(d[i..i'], d[i'..]);
    MulPositive(Prod(d[i..i']), Prod(d[i'..]));
  }

  /** Only one source axis can be the one a target suffix ends in. */
  lemma WholeRunDecided(p: Problem, j: nat, i: nat)
    requires p.Valid() && j <= |p.target| && i < |p.dims|
    requires Prod(p.dims[i + 1..]) < Prod(p.target[j..]) <= Prod(p.dims[i..])
    ensures WholeRunAt(p, j) <==> p.strides[i] == 0 || Prod(p.dims[i..]) % Prod(p.target[j..]) == 0
  {
    forall i' | 0 <= i' < |p.dims| && Prod(p.dims[i' + 1..]) < Prod(p.target[j..]) <= Prod(p.dims[i'..])
      ensures i' == i
    {
      if i < i' { SuffixMonotone(p.dims, i + 1, i'); }
      if i' < i { SuffixMonotone(p.dims, i' + 1, i); }
    }
  }

  // ----- loop states -----

  /** Between runs: `exact` are strides for the target axes already handled. */
  ghost predicate Between(p: Problem, targetDims: seq<dim>, origDims: seq<dim>, origStrides: seq<nat>, exact: seq<nat>) {
    && p.Valid()
    && |origDims| == |origStrides| && AllLong(origDims)
    && |targetDims| + |exact| == |p.target| && targetDims == p.target[..|targetDims|]
    && Prod(origDims) == Prod(targetDims)
    && Equal(p.dims, p.strides, origDims + p.target[|targetDims|..], origStrides + exact)
    && Follows(p, origDims, origStrides, Prod(p.target[|targetDims|..]))
  }

  /** The source stack is a prefix of the source axes whose last axis may be the outer part
      of a source axis (or of several joined ones) whose inner part is already used. */
  ghost predicate Follows(p: Problem, origDims: seq<dim>, origStrides: seq<nat>, used: dim)
    requires p.Valid()
  {
    && |origDims| == |origStrides| && |origDims| <= |p.dims|
    && (origDims != [] ==>
          var i := |origDims| - 1;
          && origDims[..i] == p.dims[..i] && origStrides[..i] == p.strides[..i]
          && (origStrides[i] == 0 <==> p.strides[i] == 0)
          && Prod(p.dims[i + 1..]) <= used
          && Prod(p.dims[i..]) == origDims[i] * used)
  }

  /** The target axes this run has taken so far. */
  function Group(p: Problem, r: Run, exact: seq<nat>): seq<dim>
    requires |r.targetDims| + |exact| <= |p.target|
  {
    p.target[|r.targetDims|..|p.target| - |exact|]
  }

  function Done(p: Problem, exact: seq<nat>): seq<dim>
    requires |exact| <= |p.target|
  {
    p.target[|p.target| - |exact|..]
  }

  /** During a run. */
  ghost predicate During(p: Problem, r: Run, exact: seq<nat>) {
    && p.Valid()
    && |r.targetDims| + |exact| < |p.target| && r.targetDims == p.target[..|r.targetDims|]
    && |r.origDims| < |p.dims| && r.origDims == p.dims[..|r.origDims|] && r.origStrides == p.strides[..|r.origDims|]
    && r.target == Prod(Group(p, r, exact)) && Prod(Group(p, r, exact)[1..]) < r.cur
    && r.lastDim * r.lastStride == r.cur * r.stride
    && (r.stride == 0 <==> p.strides[|r.origDims|] == 0)
    && Prod(r.origDims) * r.cur == Prod(r.targetDims) * r.target
    && Prod(p.dims[|r.origDims| + 1..]) < r.target * Prod(Done(p, exact))
    && Prod(p.dims[|r.origDims|..]) == r.cur * Prod(Done(p, exact))
    && Equal(p.dims, p.strides, r.origDims + [r.cur] + Done(p, exact), r.origStrides + [r.stride] + exact)
  }

  lemma StartState(p: Problem)
    requires p.Valid()
    ensures Between(p, p.target, p.dims, p.strides, [])
  {
    assert p.target[|p.target|..] == [];
    assert p.dims + [] == p.dims && p.strides + [] == p.strides;
    if p.dims != [] {
      var i := |p.dims| - 1;
      assert p.dims[i + 1..] == [] && p.dims[i..] == [] + [p.dims[i]];
      ProdAppend([], p.dims[i]);
    }
  }

  lemma EndState(p: Problem, origDims: seq<dim>, origStrides: seq<nat>, exact: seq<nat>)
    requires Between(p, [], origDims, origStrides, exact)
    ensures origDims == [] && |exact| == |p.target| && Equal(p.dims, p.strides, p.target, exact)
  {
    if origDims != [] {
      var n := |origDims| - 1;
      MulMonotone(1, Prod(origDims[..n]), origDims[n]);
      assert false;
    }
    assert p.target[0..] == p.target && [] + p.target == p.target && [] + exact == exact;
  }
}
