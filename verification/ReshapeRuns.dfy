/** How a run ends: its rest goes back as one axis, or no strides fit. */
module ReshapeRuns {
  import opened Arithmetic
  import opened Layout
  import opened Reshape
  import opened ReshapeStates
  import opened ReshapeSteps

  /** The run ends when its length is a multiple of the target axes taken; what is left of
      it goes back on the source stack. */
  lemma EndRun(p: Problem, r: Run, exact: seq<nat>)
    requires During(p, r, exact) && r.cur % r.target == 0
    ensures var div := r.cur / r.target;
            var exact' := RunStrides(Group(p, r, exact), r.stride) + exact;
            && 1 <= div
            && (div == 1 ==> Between(p, r.targetDims, r.origDims, r.origStrides, exact'))
            && (div != 1 ==> Between(p, r.targetDims, r.origDims + [div], r.origStrides + [r.target * r.stride], exact'))
  {
    var div := r.cur / r.target;
    DivExact(r.cur, r.target);
    if div == 1 {
      EndRunWhole(p, r, exact);
    } else {
      EndRunRest(p, r, exact, div);
    }
  }

  /** The target axes use up the run. */
  lemma EndRunWhole(p: Problem, r: Run, exact: seq<nat>)
    requires During(p, r, exact) && r.cur == r.target
    ensures Between(p, r.targetDims, r.origDims, r.origStrides, RunStrides(Group(p, r, exact), r.stride) + exact)
  {
    var outer, all := r.target * r.stride, RunStrides(Group(p, r, exact), r.stride) + exact;
    var rest := p.target[|r.targetDims|..];
    EndRunTail(p, r, exact, 1, outer);
    EndRunSizes(p, r, exact, 1);
    EndRunFollows(p, r, exact);
    DropUnitAxis(r.origDims, r.origStrides, outer, rest, all);
    EqualTransitive(p.dims, p.strides, r.origDims + [1] + rest, r.origStrides + [outer] + all,
                    r.origDims + rest, r.origStrides + all);
    hide Equal, Prod;
  }

  /** The rest of the run goes back as one axis. */
  lemma EndRunRest(p: Problem, r: Run, exact: seq<nat>, div: dim)
    requires During(p, r, exact) && r.cur == div * r.target && div != 1
    ensures Between(p, r.targetDims, r.origDims + [div], r.origStrides + [r.target * r.stride],
                    RunStrides(Group(p, r, exact), r.stride) + exact)
  {
    var outer := r.target * r.stride;
    EndRunTail(p, r, exact, div, outer);
    EndRunSizes(p, r, exact, div);
    hide Equal, Prod;
  }

  lemma EndRunTail(p: Problem, r: Run, exact: seq<nat>, div: dim, outer: nat)
    requires During(p, r, exact) && r.cur == div * r.target && outer == r.target * r.stride
    ensures Equal(p.dims, p.strides, r.origDims + [div] + p.target[|r.targetDims|..],
                  r.origStrides + [outer] + (RunStrides(Group(p, r, exact), r.stride) + exact))
  {
    var g, done := Group(p, r, exact), Done(p, exact);
    var gs := RunStrides(g, r.stride);
    EndRunEqual(p, r, exact, div, outer);
    hide Equal, Prod;
    assert p.target[|r.targetDims|..] == g + done;
    assert r.origDims + [div] + g + done == r.origDims + [div] + p.target[|r.targetDims|..];
    assert r.origStrides + [outer] + gs + exact == r.origStrides + [outer] + (gs + exact);
  }

  lemma EndRunEqual(p: Problem, r: Run, exact: seq<nat>, div: dim, outer: nat)
    requires During(p, r, exact) && r.cur == div * r.target && outer == r.target * r.stride
    ensures var g, done := Group(p, r, exact), Done(p, exact);
            Equal(p.dims, p.strides, r.origDims + [div] + g + done,
                  r.origStrides + [outer] + RunStrides(g, r.stride) + exact)
  {
    var g, done := Group(p, r, exact), Done(p, exact);
    SplitRun(r.origDims, r.origStrides, div, g, r.cur, r.stride, outer, done, exact);
    EqualTransitive(p.dims, p.strides, r.origDims + [r.cur] + done, r.origStrides + [r.stride] + exact,
                    r.origDims + [div] + g + done, r.origStrides + [outer] + RunStrides(g, r.stride) + exact);
  }

  lemma EndRunSizes(p: Problem, r: Run, exact: seq<nat>, div: dim)
    requires During(p, r, exact) && r.cur == div * r.target
    ensures Prod(r.origDims) * div == Prod(r.targetDims) && Prod(r.origDims + [div]) == Prod(r.targetDims)
    ensures var used := Prod(p.target[|r.targetDims|..]);
            Prod(p.dims[|r.origDims| + 1..]) < used && Prod(p.dims[|r.origDims|..]) == div * used
    ensures r.stride == 0 <==> r.target * r.stride == 0
  {
    Associate(Prod(r.origDims), div, r.target);
    ModOfMultiple(Prod(r.origDims) * div, r.target);
    ModOfMultiple(Prod(r.targetDims), r.target);
    ProdAppend(r.origDims, div);
    SuffixSizes(p, r, exact);
    Associate(div, r.target, Prod(Done(p, exact)));
    if r.stride != 0 { MulPositive(r.target, r.stride); }
  }

  lemma EndRunFollows(p: Problem, r: Run, exact: seq<nat>)
    requires During(p, r, exact) && Prod(p.dims[|r.origDims|..]) == Prod(p.target[|r.targetDims|..])
    ensures Follows(p, r.origDims, r.origStrides, Prod(p.target[|r.targetDims|..]))
  {
    if r.origDims != [] {
      var i := |r.origDims| - 1;
      assert p.dims[i..] == [p.dims[i]] + p.dims[i + 1..];
      ProdPrepend(p.dims[i], p.dims[i + 1..]);
    }
  }

  /** A run that cannot be continued rules out every stride vector for the target. */
  lemma RunFails(p: Problem, r: Run, exact: seq<nat>, ns: seq<nat>)
    requires During(p, r, exact) && r.cur < r.target && r.origDims != []
    requires r.lastStride * r.lastDim != r.origStrides[|r.origDims| - 1]
    requires |ns| == |p.target|
    ensures !SameOffsets(p.dims, p.strides, p.target, ns)
  {
    var g, done := Group(p, r, exact), Done(p, exact);
    assert p.target == r.targetDims + [g[0]] + g[1..] + done;
    assert g == [g[0]] + g[1..];
    ProdPrepend(g[0], g[1..]);
    var k := NoStridesFit(r.origDims, r.origStrides, r.cur, r.stride, done, exact, r.targetDims, g[0], g[1..], ns);
    assert Offset(p.dims, p.strides, k) == Offset(r.origDims + [r.cur] + done, r.origStrides + [r.stride] + exact, k);
  }
}
