/** What each step within a run keeps. */
module ReshapeSteps {
  import opened Arithmetic
  import opened Layout
  import opened Reshape
  import opened ReshapeStates

  lemma StartRun(p: Problem, targetDims: seq<dim>, origDims: seq<dim>, origStrides: seq<nat>, exact: seq<nat>)
    requires Between(p, targetDims, origDims, origStrides, exact) && targetDims != []
    ensures origDims != []
    ensures var n, m := |targetDims| - 1, |origDims| - 1;
            During(p, Run(targetDims[..n], origDims[..m], origStrides[..m], origDims[m], origStrides[m],
                          targetDims[n], origDims[m], origStrides[m]), exact)
  {
    var n := |targetDims| - 1;
    MulMonotone(1, Prod(targetDims[..n]), targetDims[n]);
    assert origDims != [];
    var m, done := |origDims| - 1, p.target[|targetDims|..];
    var r := Run(targetDims[..n], origDims[..m], origStrides[..m], origDims[m], origStrides[m],
                 targetDims[n], origDims[m], origStrides[m]);
    assert Done(p, exact) == done;
    assert Group(p, r, exact) == [targetDims[n]];
    assert Prod([targetDims[n]]) == targetDims[n];
    assert Equal(p.dims, p.strides, r.origDims + [r.cur] + done, r.origStrides + [r.stride] + exact) by {
      assert origDims + done == origDims[..m] + [origDims[m]] + done;
      assert origStrides + exact == origStrides[..m] + [origStrides[m]] + exact;
    }
    MulStrict(1, targetDims[n], Prod(done));
  }

  /** The size of the source suffix at the current axis, and where the target suffix ends. */
  lemma SuffixSizes(p: Problem, r: Run, exact: seq<nat>)
    requires During(p, r, exact)
    ensures Prod(p.target[|r.targetDims|..]) == r.target * Prod(Done(p, exact))
  {
    assert p.target[|r.targetDims|..] == Group(p, r, exact) + Done(p, exact);
    ProdConcat(Group(p, r, exact), Done(p, exact));
  }

  lemma ModOfScaled(cur: nat, target: dim, q: dim)
    requires 1 <= target * q
    ensures (cur * q) % (target * q) == cur % target * q
  {
    var d, m := cur / target, cur % target;
    Distribute(d * target, m, q);
    Associate(d, target, q);
    MulStrict(m, target, q);
    DivModUnique(cur * q, target * q, d, m * q);
  }

  /** What a run settles about its outermost target axis. */
  lemma HeadSettled(p: Problem, r: Run, exact: seq<nat>)
    requires During(p, r, exact) && r.target <= r.cur
    ensures p.Valid() && |r.targetDims| < |p.target|
    ensures WholeRunAt(p, |r.targetDims|) <==> r.stride == 0 || r.cur % r.target == 0
  {
    var q := Prod(Done(p, exact));
    SuffixSizes(p, r, exact);
    MulMonotone(r.target, r.cur, q);
    WholeRunDecided(p, |r.targetDims|, |r.origDims|);
    MulPositive(r.target, q);
    ModOfScaled(r.cur, r.target, q);
    if r.cur % r.target != 0 { MulPositive(r.cur % r.target, q); }
  }

  /** The run is longer than the target axes taken so far: there is a next target axis. */
  lemma TargetLeft(p: Problem, r: Run, exact: seq<nat>)
    requires During(p, r, exact) && r.target < r.cur
    ensures r.targetDims != []
  {
    MulPositive(Prod(r.origDims), r.cur);
  }

  lemma TakeTarget(p: Problem, r: Run, exact: seq<nat>, t: dim, target': dim)
    requires During(p, r, exact) && r.target < r.cur && r.targetDims != []
    requires t == r.targetDims[|r.targetDims| - 1] && target' == r.target * t
    ensures var r' := r.(targetDims := r.targetDims[..|r.targetDims| - 1], target := target');
            && During(p, r', exact)
            && RunStrides(Group(p, r', exact), r.stride) ==
                 [r.target * r.stride] + RunStrides(Group(p, r, exact), r.stride)
  {
    var n, g := |r.targetDims| - 1, Group(p, r, exact);
    var r' := r.(targetDims := r.targetDims[..n], target := target');
    assert Group(p, r', exact) == [t] + g;
    assert ([t] + g)[1..] == g;
    ProdPrepend(t, g);
    Associate(Prod(r.targetDims[..n]), t, r.target);
    MulPositive(r.target, t);
    MulMonotone(r.target, target', Prod(Done(p, exact)));
  }

  /** The target axes taken so far are longer than the run: there is a next source axis. */
  lemma SourceLeft(p: Problem, r: Run, exact: seq<nat>)
    requires During(p, r, exact) && r.cur < r.target
    ensures r.origDims != []
  {
    MulPositive(Prod(r.targetDims), r.target);
  }

  /** Joining the next source axis, when it continues the run. */
  lemma JoinSource(p: Problem, r: Run, exact: seq<nat>)
    requires During(p, r, exact) && r.cur < r.target && r.origDims != []
    requires r.lastStride * r.lastDim == r.origStrides[|r.origDims| - 1]
    ensures var n := |r.origDims| - 1;
            && 1 <= r.cur * r.origDims[n]
            && During(p, r.(origDims := r.origDims[..n], origStrides := r.origStrides[..n],
                            cur := r.cur * r.origDims[n], lastDim := r.origDims[n], lastStride := r.origStrides[n]), exact)
  {
    var n := |r.origDims| - 1;
    var d, e, done := r.origDims[n], r.origStrides[n], Done(p, exact);
    MulPositive(r.cur, d);
    var cur' := r.cur * d;
    var r' := r.(origDims := r.origDims[..n], origStrides := r.origStrides[..n], cur := cur', lastDim := d, lastStride := e);
    assert e == r.cur * r.stride;
    JoinLayouts(p, r, r', exact, d, e);
    JoinSizes(p, r, exact, d, cur');
  }

  /** The layouts before and after a join are equal. */
  lemma JoinLayouts(p: Problem, r: Run, r': Run, exact: seq<nat>, d: dim, e: nat)
    requires During(p, r, exact) && r.cur < r.target && r.origDims == r'.origDims + [d] && r.origStrides == r'.origStrides + [e]
    requires |r'.origDims| == |r'.origStrides| && r'.stride == r.stride && 1 <= r'.cur == r.cur * d && e == r.cur * r.stride
    ensures Equal(p.dims, p.strides, r'.origDims + [r'.cur] + Done(p, exact), r'.origStrides + [r.stride] + exact)
  {
    var done := Done(p, exact);
    JoinAxes(r'.origDims, r'.origStrides, d, r.cur, r'.cur, r.stride, e, done, exact);
    assert r.origDims + [r.cur] + done == r'.origDims + [d, r.cur] + done;
    assert r.origStrides + [r.stride] + exact == r'.origStrides + [e, r.stride] + exact;
    EqualTransitive(p.dims, p.strides, r.origDims + [r.cur] + done, r.origStrides + [r.stride] + exact,
                    r'.origDims + [r'.cur] + done, r'.origStrides + [r.stride] + exact);
  }

  /** The size bookkeeping of a join. */
  lemma JoinSizes(p: Problem, r: Run, exact: seq<nat>, d: dim, cur': dim)
    requires During(p, r, exact) && r.cur < r.target && r.origDims != []
    requires d == r.origDims[|r.origDims| - 1] && cur' == r.cur * d
    requires r.origStrides[|r.origDims| - 1] == r.cur * r.stride
    ensures var n := |r.origDims| - 1;
            && d * r.origStrides[n] == cur' * r.stride
            && (r.stride == 0 <==> p.strides[n] == 0)
            && Prod(r.origDims[..n]) * cur' == Prod(r.targetDims) * r.target
            && Prod(p.dims[n + 1..]) < r.target * Prod(Done(p, exact))
            && Prod(p.dims[n..]) == cur' * Prod(Done(p, exact))
  {
    var n, q := |r.origDims| - 1, Prod(Done(p, exact));
    Associate(d, r.cur, r.stride);
    Associate(Prod(r.origDims[..n]), d, r.cur);
    MulStrict(r.cur, r.target, q);
    assert p.dims[n..] == [d] + p.dims[n + 1..];
    ProdPrepend(d, p.dims[n + 1..]);
    Associate(d, r.cur, q);
    if r.stride != 0 { MulPositive(r.cur, r.stride); }
  }
}
