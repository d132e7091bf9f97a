/** Resolved tensor types: axis lengths with a storage stride per axis. */
module TensorTypes {
  import opened Arithmetic
  import opened Layout
  import opened Options
  import opened Reshape
  import opened ReshapeRuns
  import opened ReshapeStates
  import opened ReshapeSteps

  datatype DataType = Bool | SInt(bits: nat) | UInt(bits: nat) | Float(bits: nat)

  datatype ResolvedTensorType = ResolvedTensorType(elem: DataType, dims: seq<dim>, strides: seq<nat>) {
    ghost predicate Valid() {
      |dims| == |strides|
    }

    /** Storage offset of the k-th element in row-major order. */
    function OffsetOf(k: nat): nat
      requires Valid()
    {
      Offset(dims, strides, k)
    }
  }

  /** The element count the source computes: a scalar (no axes) counts as 0. */
  function Size(dims: seq<dim>): nat {
    if dims == [] then 0 else Prod(dims)
  }

  predicate CompatibleWithScalar(dims: seq<dim>) {
    dims == [] || Size(dims) == 1
  }

  /** A tensor without axes has size 0, any other one that of its axes multiplied; a shape goes
      with scalars exactly when all its axes are units. */
  lemma SizeMeans(dims: seq<dim>, d: dim)
    ensures Size([]) == 0 && Size([d]) == d && (dims != [] ==> Size(dims + [d]) == Size(dims) * d)
    ensures CompatibleWithScalar(dims) <==> forall i :: 0 <= i < |dims| ==> dims[i] == 1
  {
    ProdAppend([], d);
    assert [] + [d] == [d];
    ProdAppend(dims, d);
    UnitProd(dims);
  }

  lemma {:induction false} UnitProd(dims: seq<dim>)
    ensures Prod(dims) == 1 <==> forall i :: 0 <= i < |dims| ==> dims[i] == 1
  {
    if dims != [] {
      var n := |dims| - 1;
      UnitProd(dims[..n]);
      assert dims == dims[..n] + [dims[n]];
      ProdAppend(dims[..n], dims[n]);
      if Prod(dims[..n]) * dims[n] == 1 {
        MulPositive(Prod(dims[..n]), dims[n]);
      }
    }
  }

  /** Both types have the same number of elements, and each element, numbered in row-major
      order, sits at the same storage offset. */
  ghost predicate SameElements(t: ResolvedTensorType, u: ResolvedTensorType)
    requires t.Valid() && u.Valid()
  {
    Prod(t.dims) == Prod(u.dims) && forall k: nat :: k < Prod(t.dims) ==> t.OffsetOf(k) == u.OffsetOf(k)
  }

  /** Some stride vector makes `target` a view of `t` that moves no element. */
  ghost predicate CanView(t: ResolvedTensorType, target: seq<dim>)
    requires t.Valid()
  {
    exists strides: seq<nat> :: |strides| == |target| && SameElements(t, ResolvedTensorType(t.elem, target, strides))
  }

  // ----- contiguous types -----

  function ContiguousStrides(dims: seq<dim>): (r: seq<nat>)
    ensures |r| == |dims|
  {
    if dims == [] then [] else [if dims[0] == 1 then 0 else Prod(dims[1..])] + ContiguousStrides(dims[1..])
  }

  function Contiguous(elem: DataType, dims: seq<dim>): ResolvedTensorType {
    ResolvedTensorType(elem, dims, ContiguousStrides(dims))
  }

  method CalcStride(dims: seq<dim>) returns (stride: seq<nat>)
    ensures stride == ContiguousStrides(dims)
  {
    var acc: dim := 1;
    stride := seq(|dims|, _ => 0);
    for i := |dims| downto 0
      invariant |stride| == |dims| && acc == Prod(dims[i..])
      invariant stride[i..] == ContiguousStrides(dims[i..])
    {
      ghost var inner := stride[i + 1..];
      stride := stride[i := if dims[i] == 1 then 0 else acc];
      assert stride[i..] == [stride[i]] + inner;
      assert dims[i..] == [dims[i]] + dims[i + 1..];
      ProdPrepend(dims[i], dims[i + 1..]);
      MulPositive(acc, dims[i]);
      acc := acc * dims[i];
    }
  }

  method New(elem: DataType, dims: seq<dim>) returns (t: ResolvedTensorType)
    ensures t == Contiguous(elem, dims)
  {
    var stride := CalcStride(dims);
    t := ResolvedTensorType(elem, dims, stride);
  }

  /** In a contiguous type the k-th element sits at offset k. */
  lemma {:induction false} ContiguousOffset(dims: seq<dim>, k: nat)
    requires k < Prod(dims)
    ensures Offset(dims, ContiguousStrides(dims), k) == k
  {
    if dims != [] {
      assert dims == [dims[0]] + dims[1..];
      var q, m := OuterStep(dims[0], dims[1..], k);
      ContiguousOffset(dims[1..], m);
    }
  }

  lemma OuterStep(d: dim, rest: seq<dim>, k: nat) returns (q: nat, m: nat)
    requires k < Prod([d] + rest)
    ensures m < Prod(rest)
    ensures Offset([d] + rest, ContiguousStrides([d] + rest), k) - Offset(rest, ContiguousStrides(rest), m) == k - m
  {
    var dims, restS, n, s := [d] + rest, ContiguousStrides(rest), Prod(rest), ContiguousStrides([d] + rest)[0];
    assert dims[1..] == rest;
    assert ContiguousStrides(dims) == [s] + restS && s == (if d == 1 then 0 else n);
    ProdPrepend(d, rest);
    hide Prod, Offset, ContiguousStrides;
    q, m := Digits(k, d, n);
    OutermostDigit(d, s, rest, restS, k, q, m);
    UnitDigit(d, n, s, q, m, k);
  }

  lemma Digits(k: nat, d: nat, n: nat) returns (q: nat, m: nat)
    requires n > 0 && k < d * n
    ensures k == q * n + m && m < n && q < d
  {
    q, m := k / n, k % n;
    DivBound(k, d, n);
  }

  lemma UnitDigit(d: dim, n: nat, s: nat, q: nat, m: nat, k: nat)
    requires q < d && k == q * n + m && s == (if d == 1 then 0 else n)
    ensures q * s + m == k
  {
  }

  lemma OutermostDigit(d: dim, s: nat, rest: seq<dim>, restS: seq<nat>, k: nat, q: nat, m: nat)
    requires |rest| == |restS| && q < d && m < Prod(rest) && k == q * Prod(rest) + m
    ensures Offset([d] + rest, [s] + restS, k) == q * s + Offset(rest, restS, m)
  {
    var n := Prod(rest);
    DivModUnique(k, n, q, m);
    DivModUnique(m, n, 0, m);
    OffsetConcat([d], [s], rest, restS, k);
    SameRemainder(rest, restS, k, m);
    OneAxis(d, s, q);
  }

  lemma OneAxis(d: dim, s: nat, m: nat)
    requires m < d
    ensures Offset([d], [s], m) == m * s
  {
    InnermostRun([], [], d, s, m);
    assert [] + [d] == [d] && [] + [s] == [s];
  }

  // ----- reshape without moving data -----

  /** What the loop pushes when one source run serves a further target axis: the run's bare
      stride, as src/tensor/types.rs:532 is written, or that stride times the target axes
      already taken from the run, which is what the result needs. */
  datatype PushRule = Bare | Scaled

  /** Where the bare stride is pushed it is the right one. */
  ghost predicate WholeRuns(t: ResolvedTensorType, target: seq<dim>)
    requires t.Valid() && Prod(t.dims) == Prod(target)
  {
    ProdOfLong(t.dims);
    ProdOfLong(target);
    WholeRunsFrom(LongProblem(t, target), 0)
  }

  function LongProblem(t: ResolvedTensorType, target: seq<dim>): Problem
    requires t.Valid()
  {
    Problem(LongAxes(t.dims), LongStrides(t.dims, t.strides), LongAxes(target))
  }

  function Reversed(s: seq<nat>): (r: seq<nat>)
    ensures |r| == |s|
  {
    if s == [] then [] else Reversed(s[1..]) + [s[0]]
  }

  lemma ReversedPrepend(a: nat, s: seq<nat>)
    ensures Reversed([a] + s) == Reversed(s) + [a]
  {
    assert ([a] + s)[1..] == s;
  }

  lemma {:induction false} ReversedTwice(s: seq<nat>)
    ensures Reversed(Reversed(s)) == s
  {
    if s != [] {
      ReversedTwice(s[1..]);
      ReversedAppend(Reversed(s[1..]), s[0]);
      assert s == [s[0]] + s[1..];
    }
  }

  lemma {:induction false} ReversedAppend(s: seq<nat>, a: nat)
    ensures Reversed(s + [a]) == [a] + Reversed(s)
  {
    if s == [] {
      assert s + [a] == [a];
    } else {
      assert (s + [a])[1..] == s[1..] + [a];
      ReversedAppend(s[1..], a);
    }
  }

  /** The strides pushed so far against the exact ones: equal under `Scaled`; under `Bare`
      equal just when no settled target axis from `lo` on needed more than the bare stride. */
  ghost predicate Pushed(p: Problem, rule: PushRule, newStrides: seq<nat>, exact: seq<nat>, lo: nat)
    requires p.Valid()
  {
    && |newStrides| == |exact|
    && (rule == Scaled ==> newStrides == Reversed(exact))
    && (rule == Bare ==> (newStrides == Reversed(exact) <==> WholeRunsFrom(p, lo)))
  }

  lemma PushedHead(p: Problem, rule: PushRule, newStrides: seq<nat>, exact: seq<nat>, lo: nat, push: nat, head: nat)
    requires p.Valid() && lo < |p.target| && Pushed(p, rule, newStrides, exact, lo + 1)
    requires rule == Scaled ==> push == head
    requires rule == Bare ==> (push == head <==> WholeRunAt(p, lo))
    ensures Pushed(p, rule, newStrides + [push], [head] + exact, lo)
  {
    ReversedPrepend(head, exact);
    assert (newStrides + [push])[..|newStrides|] == newStrides;
    assert (Reversed(exact) + [head])[..|exact|] == Reversed(exact);
    assert newStrides + [push] == Reversed([head] + exact) ==> newStrides == Reversed(exact) && push == head;
  }

  lemma PushedSettled(p: Problem, rule: PushRule, newStrides: seq<nat>, exact: seq<nat>, lo: nat)
    requires p.Valid() && lo < |p.target| && Pushed(p, rule, newStrides, exact, lo + 1) && WholeRunAt(p, lo)
    ensures Pushed(p, rule, newStrides, exact, lo)
  {
  }

  lemma SplitPairs(t: ResolvedTensorType, target: seq<dim>, ns: seq<nat>)
    requires t.Valid() && |ns| == |target| && Prod(t.dims) == Prod(target)
    ensures Prod(LongAxes(t.dims)) == Prod(LongAxes(target))
    ensures SameElements(t, ResolvedTensorType(t.elem, target, ns)) <==>
            SameOffsets(LongAxes(t.dims), LongStrides(t.dims, t.strides), LongAxes(target), LongStrides(target, ns))
  {
    ProdOfLong(t.dims);
    ProdOfLong(target);
    var p := LongProblem(t, target);
    forall k: nat ensures Offset(p.dims, p.strides, k) == t.OffsetOf(k)
                  ensures Offset(p.target, LongStrides(target, ns), k) == Offset(target, ns, k) {
      OffsetOfLong(t.dims, t.strides, k);
      OffsetOfLong(target, ns, k);
    }
    assert forall k: nat :: k < Prod(t.dims) ==>
      (t.OffsetOf(k) == Offset(target, ns, k) <==>
       Offset(p.dims, p.strides, k) == Offset(p.target, LongStrides(target, ns), k));
  }

  lemma PushedFirst(p: Problem, rule: PushRule, newStrides: seq<nat>, exact: seq<nat>, lo: nat, push: nat)
    requires p.Valid() && Pushed(p, rule, newStrides, exact, lo)
    ensures Pushed(p, rule, newStrides + [push], [push] + exact, lo)
  {
    ReversedPrepend(push, exact);
    assert (newStrides + [push])[..|newStrides|] == newStrides;
    assert (Reversed(exact) + [push])[..|exact|] == Reversed(exact);
  }

  /** A further target axis taken from a run, as the loop's push records it. */
  lemma PushTaken(p: Problem, rule: PushRule, newStrides: seq<nat>, r: Run, exact: seq<nat>, push: nat)
    requires During(p, r, exact) && r.target < r.cur && r.cur % r.target != 0
    requires Pushed(p, rule, newStrides, RunStrides(Group(p, r, exact), r.stride) + exact, |r.targetDims| + 1)
    requires push == if rule == Scaled then r.stride * r.target else r.stride
    ensures Pushed(p, rule, newStrides + [push], [r.target * r.stride] + (RunStrides(Group(p, r, exact), r.stride) + exact),
                   |r.targetDims|)
  {
    HeadSettled(p, r, exact);
    assert r.target != 1;
    if r.stride != 0 { MulStrict(1, r.target, r.stride); }
    PushedHead(p, rule, newStrides, RunStrides(Group(p, r, exact), r.stride) + exact, |r.targetDims|,
               push, r.target * r.stride);
  }

  /** From the strides of the long axes to the whole result. */
  lemma Finish(t: ResolvedTensorType, target: seq<dim>, rule: PushRule, newStrides: seq<nat>, exact: seq<nat>)
    requires t.Valid() && Prod(t.dims) == Prod(target)
    requires var p := LongProblem(t, target);
             p.Valid() && |exact| == |p.target| && Equal(p.dims, p.strides, p.target, exact) && Pushed(p, rule, newStrides, exact, 0)
    ensures var u := ResolvedTensorType(t.elem, target, Expand(target, Reversed(newStrides)));
            && (rule == Scaled ==> SameElements(t, u))
            && (rule == Bare ==> (SameElements(t, u) <==> WholeRuns(t, target)))
    ensures CanView(t, target)
  {
    var p, ns := LongProblem(t, target), Reversed(newStrides);
    ReversedTwice(exact);
    ReversedTwice(newStrides);
    assert ns == exact <==> newStrides == Reversed(exact);
    FitsExactly(p, exact, ns);
    ExpandThenLong(target, ns);
    SplitPairs(t, target, Expand(target, ns));
    ExpandThenLong(target, exact);
    SplitPairs(t, target, Expand(target, exact));
    assert SameElements(t, ResolvedTensorType(t.elem, target, Expand(target, exact)));
  }

  lemma FitsExactly(p: Problem, exact: seq<nat>, ns: seq<nat>)
    requires p.Valid() && |exact| == |ns| == |p.target| && Equal(p.dims, p.strides, p.target, exact)
    ensures SameOffsets(p.dims, p.strides, p.target, ns) <==> ns == exact
    ensures SameOffsets(p.dims, p.strides, p.target, exact)
  {
    if SameOffsets(p.dims, p.strides, p.target, ns) {
      forall k: nat | k < Prod(p.target) ensures Offset(p.target, ns, k) == Offset(p.target, exact, k) {
        assert Offset(p.dims, p.strides, k) == Offset(p.target, ns, k);
      }
      StridesUnique(p.target, ns, exact);
    }
  }

  lemma OneElement(t: ResolvedTensorType, target: seq<dim>)
    requires t.Valid() && Prod(t.dims) == 1 && Prod(target) == 1
    ensures SameElements(t, Contiguous(t.elem, target)) && CanView(t, target) && WholeRuns(t, target)
    ensures forall i :: 0 <= i < |target| ==> ContiguousStrides(target)[i] == 0
  {
    OneElementSame(t, target);
    UnitStrides(target);
    OneElementRuns(t, target);
  }

  lemma OneElementSame(t: ResolvedTensorType, target: seq<dim>)
    requires t.Valid() && Prod(t.dims) == 1 && Prod(target) == 1
    ensures SameElements(t, Contiguous(t.elem, target)) && CanView(t, target)
  {
    OffsetOfMultiple(t.dims, t.strides, 0);
    ContiguousOffset(target, 0);
    hide Offset, ContiguousStrides, Prod;
    assert SameElements(t, Contiguous(t.elem, target));
  }

  lemma OneElementRuns(t: ResolvedTensorType, target: seq<dim>)
    requires t.Valid() && Prod(t.dims) == 1 && Prod(target) == 1
    ensures WholeRuns(t, target)
  {
    var p := LongProblem(t, target);
    ProdOfLong(t.dims);
    ProdOfLong(target);
    if p.target != [] {
      var n := |p.target| - 1;
      MulMonotone(1, Prod(p.target[..n]), p.target[n]);
    }
  }

  lemma {:induction false} UnitStrides(dims: seq<dim>)
    ensures forall i :: 0 <= i < |dims| && dims[i] == 1 ==> ContiguousStrides(dims)[i] == 0
    ensures Prod(dims) == 1 ==> forall i :: 0 <= i < |dims| ==> dims[i] == 1
  {
    if dims != [] {
      assert dims == [dims[0]] + dims[1..];
      ProdPrepend(dims[0], dims[1..]);
      MulPositive(dims[0], Prod(dims[1..]));
      UnitStrides(dims[1..]);
    }
  }

  /** Loop invariant of a run: the axes used so far and the strides pushed for them. */
  ghost predicate Running(p: Problem, rule: PushRule, run: Run, newStrides: seq<nat>, exact: seq<nat>) {
    During(p, run, exact) &&
    Pushed(p, rule, newStrides, RunStrides(Group(p, run, exact), run.stride) + exact, |run.targetDims| + 1)
  }

  ghost predicate Waiting(p: Problem, rule: PushRule, targetDims: seq<dim>, origDims: seq<dim>, origStrides: seq<nat>,
                          newStrides: seq<nat>, exact: seq<nat>) {
    Between(p, targetDims, origDims, origStrides, exact) && Pushed(p, rule, newStrides, exact, |targetDims|)
  }

  ghost predicate NoFit(p: Problem)
    requires p.Valid()
  {
    forall ns: seq<nat> | |ns| == |p.target| :: !SameOffsets(p.dims, p.strides, p.target, ns)
  }

  /** The first pops and the first push of a run. */
  method Begin(ghost p: Problem, ghost rule: PushRule, targetDims: seq<dim>, origDims: seq<dim>, origStrides: seq<nat>,
               newStrides: seq<nat>, ghost exact: seq<nat>)
    returns (run: Run, newStrides': seq<nat>)
    requires Waiting(p, rule, targetDims, origDims, origStrides, newStrides, exact) && targetDims != []
    ensures origDims != [] && |origDims| == |origStrides|
    ensures var n, m := |targetDims| - 1, |origDims| - 1;
            run == Run(targetDims[..n], origDims[..m], origStrides[..m], origDims[m], origStrides[m],
                       targetDims[n], origDims[m], origStrides[m])
    ensures newStrides' == newStrides + [run.stride]
    ensures Running(p, rule, run, newStrides', exact)
  {
    hide Equal, Offset, WholeRunsFrom;
    StartRun(p, targetDims, origDims, origStrides, exact);
    var n, m := |targetDims| - 1, |origDims| - 1;
    run := Run(targetDims[..n], origDims[..m], origStrides[..m], origDims[m], origStrides[m],
               targetDims[n], origDims[m], origStrides[m]);
    newStrides' := newStrides + [run.stride];
    PushedFirst(p, rule, newStrides, exact, n + 1, run.stride);
    assert Group(p, run, exact) == [run.target];
    assert RunStrides([run.target], run.stride) + exact == [run.stride] + exact;
  }

  /** The run serves one more target axis. */
  method TakeNextTarget(ghost p: Problem, rule: PushRule, run: Run, newStrides: seq<nat>, ghost exact: seq<nat>)
    returns (run': Run, newStrides': seq<nat>)
    requires Running(p, rule, run, newStrides, exact) && run.cur % run.target != 0 && run.target < run.cur
    ensures run.targetDims != [] && 1 <= run.target * run.targetDims[|run.targetDims| - 1]
    ensures run' == run.(targetDims := run.targetDims[..|run.targetDims| - 1],
                         target := run.target * run.targetDims[|run.targetDims| - 1])
    ensures newStrides' == newStrides + [if rule == Scaled then run.stride * run.target else run.stride]
    ensures Running(p, rule, run', newStrides', exact)
  {
    TargetLeft(p, run, exact);
    var next := run.targetDims[|run.targetDims| - 1];
    MulPositive(run.target, next);
    var push := if rule == Scaled then run.stride * run.target else run.stride;
    run' := run.(targetDims := run.targetDims[..|run.targetDims| - 1], target := run.target * next);
    newStrides' := newStrides + [push];
    NextTargetKeeps(p, rule, run, newStrides, exact, push, run');
  }

  lemma NextTargetKeeps(p: Problem, rule: PushRule, run: Run, newStrides: seq<nat>, exact: seq<nat>, push: nat, run': Run)
    requires Running(p, rule, run, newStrides, exact) && run.cur % run.target != 0 && run.target < run.cur
    requires push == if rule == Scaled then run.stride * run.target else run.stride
    requires run.targetDims != [] && 1 <= run.target * run.targetDims[|run.targetDims| - 1]
    requires run' == run.(targetDims := run.targetDims[..|run.targetDims| - 1],
                          target := run.target * run.targetDims[|run.targetDims| - 1])
    ensures Running(p, rule, run', newStrides + [push], exact)
  {
    hide Equal, Prod, Offset, WholeRunsFrom;
    TakeTarget(p, run, exact, run.targetDims[|run.targetDims| - 1], run'.target);
    ghost var old', new' := RunStrides(Group(p, run, exact), run.stride), RunStrides(Group(p, run', exact), run.stride);
    assert Pushed(p, rule, newStrides + [push], new' + exact, |run.targetDims|) by {
      PushTaken(p, rule, newStrides, run, exact, push);
      assert new' + exact == [run.target * run.stride] + (old' + exact);
    }
  }

  /** The run grows by one more source axis. */
  method TakeNextSource(ghost p: Problem, ghost rule: PushRule, run: Run, ghost newStrides: seq<nat>,
                      ghost exact: seq<nat>)
    returns (run': Run)
    requires Running(p, rule, run, newStrides, exact) && run.cur < run.target
    requires run.origDims != [] && |run.origDims| == |run.origStrides|
    requires run.lastStride * run.lastDim == run.origStrides[|run.origStrides| - 1]
    ensures var n := |run.origDims| - 1;
            1 <= run.cur * run.origDims[n] &&
            run' == run.(origDims := run.origDims[..n], origStrides := run.origStrides[..n],
                         cur := run.cur * run.origDims[n], lastDim := run.origDims[n], lastStride := run.origStrides[n])
    ensures Running(p, rule, run', newStrides, exact)
  {
    JoinSource(p, run, exact);
    var n := |run.origDims| - 1;
    run' := run.(origDims := run.origDims[..n], origStrides := run.origStrides[..n],
                 cur := run.cur * run.origDims[n], lastDim := run.origDims[n], lastStride := run.origStrides[n]);
    assert Group(p, run', exact) == Group(p, run, exact);
  }

  lemma RunIsFinal(p: Problem, rule: PushRule, r: Run, newStrides: seq<nat>, exact: seq<nat>)
    requires Running(p, rule, r, newStrides, exact) && r.cur < r.target && r.origDims != []
    requires r.lastStride * r.lastDim != r.origStrides[|r.origDims| - 1]
    ensures p.Valid() && NoFit(p)
  {
    forall ns: seq<nat> | |ns| == |p.target| ensures !SameOffsets(p.dims, p.strides, p.target, ns) {
      RunFails(p, r, exact, ns);
    }
  }

  lemma RunHasAxes(p: Problem, rule: PushRule, r: Run, newStrides: seq<nat>, exact: seq<nat>)
    requires Running(p, rule, r, newStrides, exact) && r.cur % r.target != 0 && !(r.target < r.cur)
    ensures r.cur < r.target && r.origDims != [] && |r.origDims| == |r.origStrides|
  {
    if r.cur == r.target { DivModUnique(r.cur, r.target, 1, 0); }
    SourceLeft(p, r, exact);
  }

  /** One pass of the outer loop: a run of source axes against the target axes it serves. */
  method UseRun(ghost p: Problem, rule: PushRule, targetDims: seq<dim>, origDims: seq<dim>, origStrides: seq<nat>,
                newStrides: seq<nat>, ghost exact: seq<nat>)
    returns (ok: bool, targetDims': seq<dim>, origDims': seq<dim>, origStrides': seq<nat>,
             newStrides': seq<nat>, ghost exact': seq<nat>)
    requires Waiting(p, rule, targetDims, origDims, origStrides, newStrides, exact) && targetDims != []
    ensures ok ==> Waiting(p, rule, targetDims', origDims', origStrides', newStrides', exact')
    ensures ok ==> |targetDims'| < |targetDims|
    ensures !ok ==> p.Valid() && NoFit(p)
  {
    hide Running, Waiting, Offset;
    var run;
    run, newStrides' := Begin(p, rule, targetDims, origDims, origStrides, newStrides, exact);
    while run.cur % run.target != 0
      invariant Running(p, rule, run, newStrides', exact) && |run.targetDims| < |targetDims|
      decreases |run.targetDims| + |run.origDims|
    {
      if run.target < run.cur {
        run, newStrides' := TakeNextTarget(p, rule, run, newStrides', exact);
      } else {
        RunHasAxes(p, rule, run, newStrides', exact);
        if run.lastStride * run.lastDim == run.origStrides[|run.origStrides| - 1] {
          run := TakeNextSource(p, rule, run, newStrides', exact);
        } else {
          RunIsFinal(p, rule, run, newStrides', exact);
          return false, [], [], [], newStrides', exact;
        }
      }
    }
    ok, targetDims' := true, run.targetDims;
    exact' := AfterRun(p, rule, run, newStrides', exact);
    RunEnds(p, rule, run, newStrides', exact);
    var div := run.cur / run.target;
    if div != 1 {
      origDims', origStrides' := run.origDims + [div], run.origStrides + [run.target * run.stride];
    } else {
      origDims', origStrides' := run.origDims, run.origStrides;
    }
  }

  ghost function AfterRun(p: Problem, rule: PushRule, run: Run, newStrides: seq<nat>, exact: seq<nat>): seq<nat>
    requires Running(p, rule, run, newStrides, exact)
  {
    RunStrides(Group(p, run, exact), run.stride) + exact
  }

  lemma RunEnds(p: Problem, rule: PushRule, run: Run, newStrides: seq<nat>, exact: seq<nat>)
    requires Running(p, rule, run, newStrides, exact) && run.cur % run.target == 0
    ensures var div := run.cur / run.target;
            var exact' := AfterRun(p, rule, run, newStrides, exact);
            && 1 <= div && 0 <= run.target * run.stride
            && (div == 1 ==> Waiting(p, rule, run.targetDims, run.origDims, run.origStrides, newStrides, exact'))
            && (div != 1 ==> Waiting(p, rule, run.targetDims, run.origDims + [div],
                                     run.origStrides + [run.target * run.stride], newStrides, exact'))
  {
    hide During, Between, Pushed, Prod, Group;
    DivExact(run.cur, run.target);
    HeadSettled(p, run, exact);
    EndRun(p, run, exact);
    PushedSettled(p, rule, newStrides, RunStrides(Group(p, run, exact), run.stride) + exact, |run.targetDims|);
  }

  lemma NoView(t: ResolvedTensorType, target: seq<dim>)
    requires t.Valid() && Prod(t.dims) == Prod(target)
    requires LongProblem(t, target).Valid() && NoFit(LongProblem(t, target))
    ensures !CanView(t, target)
  {
    forall ns: seq<nat> | |ns| == |target|
      ensures !SameElements(t, ResolvedTensorType(t.elem, target, ns))
    {
      SplitPairs(t, target, ns);
    }
  }

  /** Tries to give `t` the axes `target` without moving data.  It succeeds exactly when some
      stride vector does so.  With the scaled push the strides found are right; with the bare
      push they are right just for sources whose runs the target suffixes divide. */
  method TryReshape(t: ResolvedTensorType, target: seq<dim>, rule: PushRule) returns (r: Option<ResolvedTensorType>)
    requires t.Valid()
    ensures r.Some? <==> CanView(t, target)
    ensures r.Some? ==> r.value.Valid() && r.value.elem == t.elem && r.value.dims == target
    ensures r.Some? ==> forall i :: 0 <= i < |target| && target[i] == 1 ==> r.value.strides[i] == 0
    ensures r.Some? && rule == Scaled ==> SameElements(t, r.value)
    ensures r.Some? && rule == Bare ==> (SameElements(t, r.value) <==> WholeRuns(t, target))
  {
    if CompatibleWithScalar(t.dims) && CompatibleWithScalar(target) {
      var u := New(t.elem, target);
      OneElement(t, target);
      return Some(u);
    }
    if Size(t.dims) != Size(target) {
      return None;
    }

    var newStrides: seq<nat> := [];
    var targetDims: seq<dim> := LongAxes(target);
    var origDims: seq<dim>, origStrides: seq<nat> := LongAxes(t.dims), LongStrides(t.dims, t.strides);
    ghost var p, exact: seq<nat> := LongProblem(t, target), [];
    ProdOfLong(t.dims);
    ProdOfLong(target);
    StartState(p);
    while targetDims != []
      invariant p.Valid() && Waiting(p, rule, targetDims, origDims, origStrides, newStrides, exact)
      decreases |targetDims|
    {
      var ok;
      ok, targetDims, origDims, origStrides, newStrides, exact :=
        UseRun(p, rule, targetDims, origDims, origStrides, newStrides, exact);
      if !ok {
        NoView(t, target);
        return None;
      }
    }

    EndState(p, origDims, origStrides, exact);
    assert origDims == [];
    Finish(t, target, rule, newStrides, exact);
    newStrides := Reversed(newStrides);
    var buf := PlaceStrides(target, newStrides);
    r := Some(ResolvedTensorType(t.elem, target, buf));
  }

  method PlaceStrides(target: seq<dim>, newStrides: seq<nat>) returns (buf: seq<nat>)
    requires |newStrides| == |LongAxes(target)|
    ensures buf == Expand(target, newStrides)
  {
    var i := 0;
    buf := [];
    for j := 0 to |target|
      invariant i == |LongAxes(target[..j])| <= |newStrides|
      invariant buf == Expand(target[..j], newStrides[..i])
    {
      LongPrefix(target, j + 1);
      assert target[..j + 1][..j] == target[..j];
      if target[j] == 1 {
        buf := buf + [0];
      } else {
        assert newStrides[..i + 1][..i] == newStrides[..i];
        buf := buf + [newStrides[i]];
        i := i + 1;
      }
    }
    assert target[..|target|] == target;
    assert i == |newStrides| && newStrides[..i] == newStrides;
  }

  lemma {:induction false} LongPrefix(dims: seq<dim>, j: nat)
    requires j <= |dims|
    ensures |LongAxes(dims[..j])| <= |LongAxes(dims)|
    decreases |dims|
  {
    if j < |dims| {
      var n := |dims| - 1;
      LongPrefix(dims[..n], j);
      assert dims[..n][..j] == dims[..j];
    } else {
      assert dims[..j] == dims;
    }
  }
}
