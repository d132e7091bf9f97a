/** The pieces of the reshape algorithm: runs of axes, long axes, and why a failed join
    rules out every stride vector. */
module Reshape {
  import opened Arithmetic
  import opened Layout

  /** Equality of two layouts on every element number. */
  ghost predicate Equal(d: seq<dim>, s: seq<nat>, d': seq<dim>, s': seq<nat>)
    requires |d| == |s| && |d'| == |s'|
  {
    forall k: nat :: Offset(d, s, k) == Offset(d', s', k)
  }

  /** Axes longer than one; the algorithm works on these alone. */
  predicate AllLong(dims: seq<dim>) {
    forall i :: 0 <= i < |dims| ==> 2 <= dims[i]
  }

  function LongAxes(dims: seq<dim>): (r: seq<dim>)
    ensures AllLong(r)
  {
    if dims == [] then []
    else
      var n := |dims| - 1;
      LongAxes(dims[..n]) + (if dims[n] == 1 then [] else [dims[n]])
  }

  function LongStrides(dims: seq<dim>, strides: seq<nat>): (r: seq<nat>)
    requires |dims| == |strides|
    ensures |r| == |LongAxes(dims)|
  {
    if dims == [] then []
    else
      var n := |dims| - 1;
      LongStrides(dims[..n], strides[..n]) + (if dims[n] == 1 then [] else [strides[n]])
  }

  /** Puts the strides of the long axes back in place, with 0 for every unit axis. */
  function Expand(dims: seq<dim>, longs: seq<nat>): (r: seq<nat>)
    requires |longs| == |LongAxes(dims)|
    ensures |r| == |dims|
    ensures forall i :: 0 <= i < |dims| && dims[i] == 1 ==> r[i] == 0
  {
    if dims == [] then []
    else
      var n, m := |dims| - 1, |longs| - 1;
      if dims[n] == 1 then Expand(dims[..n], longs) + [0]
      else Expand(dims[..n], longs[..m]) + [longs[m]]
  }

  lemma {:induction false} ExpandThenLong(dims: seq<dim>, longs: seq<nat>)
    requires |longs| == |LongAxes(dims)|
    ensures LongStrides(dims, Expand(dims, longs)) == longs
  {
    if dims != [] {
      var n, m := |dims| - 1, |longs| - 1;
      if dims[n] == 1 {
        ExpandThenLong(dims[..n], longs);
        assert Expand(dims, longs)[..n] == Expand(dims[..n], longs);
      } else {
        ExpandThenLong(dims[..n], longs[..m]);
        assert Expand(dims, longs)[..n] == Expand(dims[..n], longs[..m]);
      }
    }
  }

  lemma {:induction false} ProdOfLong(dims: seq<dim>)
    ensures Prod(LongAxes(dims)) == Prod(dims)
  {
    if dims != [] {
      var n := |dims| - 1;
      ProdOfLong(dims[..n]);
      if dims[n] == 1 {
        assert LongAxes(dims) == LongAxes(dims[..n]);
      } else {
        ProdAppend(LongAxes(dims[..n]), dims[n]);
      }
    }
  }

  lemma {:induction false} OffsetOfLong(dims: seq<dim>, strides: seq<nat>, k: nat)
    requires |dims| == |strides|
    ensures Offset(LongAxes(dims), LongStrides(dims, strides), k) == Offset(dims, strides, k)
  {
    if dims != [] {
      var n := |dims| - 1;
      OffsetOfLong(dims[..n], strides[..n], k / dims[n]);
      if dims[n] == 1 {
        assert LongAxes(dims) == LongAxes(dims[..n]);
        assert LongStrides(dims, strides) == LongStrides(dims[..n], strides[..n]);
        assert k % 1 == 0 && k / 1 == k;
      } else {
        OffsetAppend(LongAxes(dims[..n]), LongStrides(dims[..n], strides[..n]), dims[n], strides[n], k);
      }
    }
  }

  // ----- runs: one source axis serving several target axes -----

  /** Strides of consecutive axes that together cover a run whose innermost step is e. */
  function RunStrides(group: seq<dim>, e: nat): (r: seq<nat>)
    ensures |r| == |group|
  {
    if group == [] then [] else [Prod(group[1..]) * e] + RunStrides(group[1..], e)
  }

  lemma ProdPrepend(p: dim, g: seq<dim>)
    ensures Prod([p] + g) == p * Prod(g)
  {
    ProdConcat([p], g);
    ProdAppend([], p);
    assert [] + [p] == [p];
  }

  lemma EqualTransitive(d: seq<dim>, s: seq<nat>, d': seq<dim>, s': seq<nat>, d'': seq<dim>, s'': seq<nat>)
    requires |d| == |s| && |d'| == |s'| && |d''| == |s''|
    requires Equal(d, s, d', s') && Equal(d', s', d'', s'')
    ensures Equal(d, s, d'', s'')
  {
    forall k: nat ensures Offset(d, s, k) == Offset(d'', s'', k) {
      assert Offset(d, s, k) == Offset(d', s', k);
    }
  }

  lemma DropUnitAxis(a: seq<dim>, b: seq<nat>, e: nat, c: seq<dim>, g: seq<nat>)
    requires |a| == |b| && |c| == |g|
    ensures Equal(a + [1] + c, b + [e] + g, a + c, b + g)
  {
    forall k: nat ensures Offset(a + [1] + c, b + [e] + g, k) == Offset(a + c, b + g, k) {
      OffsetConcat(a + [1], b + [e], c, g, k);
      OffsetConcat(a, b, c, g, k);
      OffsetAppend(a, b, 1, e, k / Prod(c));
    }
  }

  /** Two neighbouring axes join into one of pq elements when the outer stride qe
      continues the inner one. */
  lemma JoinAxes(a: seq<dim>, b: seq<nat>, p: dim, q: dim, pq: dim, e: nat, qe: nat, c: seq<dim>, g: seq<nat>)
    requires |a| == |b| && |c| == |g| && pq == p * q && qe == q * e
    ensures Equal(a + [p, q] + c, b + [qe, e] + g, a + [pq] + c, b + [e] + g)
    ensures Equal(a + [pq] + c, b + [e] + g, a + [p, q] + c, b + [qe, e] + g)
  {
    forall k: nat ensures Offset(a + [p, q] + c, b + [qe, e] + g, k) == Offset(a + [pq] + c, b + [e] + g, k) {
      SplitWithin(a, b, p, q, e, c, g, k);
    }
  }

  /** An axis of p * Prod(group) elements is an outer axis of p and the group inside it. */
  lemma {:induction false} SplitRun(a: seq<dim>, b: seq<nat>, p: dim, group: seq<dim>, all: dim, e: nat, outer: nat,
                                    c: seq<dim>, g: seq<nat>)
    requires |a| == |b| && |c| == |g| && all == p * Prod(group) && outer == Prod(group) * e
    ensures Equal(a + [all] + c, b + [e] + g, a + [p] + group + c, b + [outer] + RunStrides(group, e) + g)
    decreases |group|
  {
    if group == [] {
      assert a + [p] + group + c == a + [all] + c;
      assert b + [outer] + RunStrides(group, e) + g == b + [e] + g;
    } else {
      var q, rest := group[0], group[1..];
      var pq, inner := SplitSizes(p, group, all, e, outer);
      SplitRun(a, b, pq, rest, all, e, inner, c, g);
      SplitOffHead(a, b, p, q, pq, inner, outer, rest, RunStrides(rest, e), c, g);
      assert [q] + rest == group && [inner] + RunStrides(rest, e) == RunStrides(group, e);
      EqualTransitive(a + [all] + c, b + [e] + g, a + [pq] + rest + c, b + [inner] + RunStrides(rest, e) + g,
                      a + [p] + group + c, b + [outer] + RunStrides(group, e) + g);
    }
  }

  lemma SplitSizes(p: dim, group: seq<dim>, all: dim, e: nat, outer: nat) returns (pq: dim, inner: nat)
    requires group != [] && all == p * Prod(group) && outer == Prod(group) * e
    ensures pq == p * group[0] && all == pq * Prod(group[1..])
    ensures inner == Prod(group[1..]) * e && outer == group[0] * inner
  {
    var q, rest := group[0], group[1..];
    assert group == [q] + rest;
    ProdPrepend(q, rest);
    MulPositive(p, q);
    pq, inner := p * q, Prod(rest) * e;
    Associate(p, q, Prod(rest));
    Associate(q, Prod(rest), e);
  }

  lemma SplitOffHead(a: seq<dim>, b: seq<nat>, p: dim, q: dim, pq: dim, inner: nat, outer: nat,
                     rest: seq<dim>, restS: seq<nat>, c: seq<dim>, g: seq<nat>)
    requires |a| == |b| && |c| == |g| && |rest| == |restS| && pq == p * q && outer == q * inner
    ensures Equal(a + [pq] + rest + c, b + [inner] + restS + g,
                  a + [p] + ([q] + rest) + c, b + [outer] + ([inner] + restS) + g)
  {
    assert a + [pq] + rest + c == a + [pq] + (rest + c);
    assert b + [inner] + restS + g == b + [inner] + (restS + g);
    assert a + [p] + ([q] + rest) + c == a + [p, q] + (rest + c);
    assert b + [outer] + ([inner] + restS) + g == b + [outer, inner] + (restS + g);
    JoinAxes(a, b, p, q, pq, inner, outer, rest + c, restS + g);
  }

  // ----- why a failed join is final -----

  /** An axis of step tau cannot cross from one source run (step e, length cur) into a next
      source axis that does not continue the run: already one of the elements 0, u, cur - u
      and cur, with u the size inside the crossing axis, would sit elsewhere. */
  lemma CrossingForcesStride(a: seq<dim>, b: seq<nat>, cur: dim, e: nat, u: nat, x: seq<dim>, xs: seq<nat>,
                             y: seq<dim>, ys: seq<nat>, tau: nat)
    requires |a| == |b| && a != [] && 2 <= a[|a| - 1] && |y| == |ys|
    requires x == a + [cur] && xs == b + [e] && 1 <= u < cur
    requires Offset(y, ys, u) == Offset(y, ys, 0) + tau
    requires Offset(y, ys, cur) == Offset(y, ys, cur - u) + tau
    requires Offset(x, xs, 0) == Offset(y, ys, 0) && Offset(x, xs, u) == Offset(y, ys, u)
    requires Offset(x, xs, cur - u) == Offset(y, ys, cur - u) && Offset(x, xs, cur) == Offset(y, ys, cur)
    ensures b[|b| - 1] == cur * e
  {
    InnermostRun(a, b, cur, e, 0);
    InnermostRun(a, b, cur, e, u);
    InnermostRun(a, b, cur, e, cur - u);
    NextAxis(a, b, cur, e);
    Distribute(cur - u, u, e);
  }

  lemma FirstDifference(a: seq<dim>, b: seq<nat>, cur: dim, e: nat,
                        left: seq<dim>, leftS: seq<nat>, t: dim, tau: nat, g: seq<dim>, gs: seq<nat>)
    returns (m: nat)
    requires |a| == |b| && a != [] && 2 <= a[|a| - 1]
    requires |left| == |leftS| && |g| == |gs|
    requires Prod(g) < cur < t * Prod(g) && b[|b| - 1] != cur * e
    ensures m <= cur && Offset(a + [cur], b + [e], m) != Offset(left + [t] + g, leftS + [tau] + gs, m)
  {
    var u := Prod(g);
    var x, xs := a + [cur], b + [e];
    var y, ys := left + [t] + g, leftS + [tau] + gs;
    if Offset(x, xs, 0) != Offset(y, ys, 0) { return 0; }
    if Offset(x, xs, u) != Offset(y, ys, u) { return u; }
    if Offset(x, xs, cur - u) != Offset(y, ys, cur - u) { return cur - u; }
    m := cur;
    if Offset(x, xs, cur) == Offset(y, ys, cur) {
      AxisStep(left, leftS, t, tau, g, gs, 0);
      AxisStep(left, leftS, t, tau, g, gs, cur - u);
      CrossingForcesStride(a, b, cur, e, u, x, xs, y, ys, tau);
    }
  }

  /** No stride vector for the target has the source's offsets once a join has failed. */
  lemma NoStridesFit(od: seq<dim>, os: seq<nat>, cur: dim, e: nat, done: seq<dim>, exact: seq<nat>,
                     left: seq<dim>, t: dim, g: seq<dim>, ns: seq<nat>)
    returns (k: nat)
    requires |od| == |os| && |done| == |exact| && od != [] && 2 <= od[|od| - 1]
    requires |ns| == |left + [t] + g + done|
    requires Prod(g) < cur < t * Prod(g) && os[|os| - 1] != cur * e
    ensures k < Prod(left + [t] + g + done)
    ensures Offset(od + [cur] + done, os + [e] + exact, k) != Offset(left + [t] + g + done, ns, k)
  {
    var n0, n1, n2 := |left|, |left| + 1, |left| + 1 + |g|;
    var leftS, tau, gs, doneS := ns[..n0], ns[n0], ns[n1..n2], ns[n2..];
    assert ns == leftS + [tau] + gs + doneS;
    var m := FirstDifference(od, os, cur, e, left, leftS, t, tau, g, gs);
    k := m * Prod(done);
    OuterOnly(od + [cur], os + [e], done, exact, m);
    OuterOnly(left + [t] + g, leftS + [tau] + gs, done, doneS, m);
    assert m < Prod(left + [t] + g) by { ProdAtLeast(left, t, g); }
    assert k < Prod(left + [t] + g + done) by {
      ProdConcat(left + [t] + g, done);
      MulStrict(m, Prod(left + [t] + g), Prod(done));
    }
  }

  lemma ProdAtLeast(left: seq<dim>, t: dim, g: seq<dim>)
    ensures t * Prod(g) <= Prod(left + [t] + g)
  {
    ProdConcat(left + [t], g);
    ProdAppend(left, t);
    MulMonotone(1, Prod(left), t);
    MulMonotone(t, Prod(left) * t, Prod(g));
  }

  /** Long axes leave no freedom: their strides are read off the offsets. */
  lemma {:induction false} StridesUnique(d: seq<dim>, s: seq<nat>, s': seq<nat>)
    requires |d| == |s| == |s'| && AllLong(d)
    requires SameOffsets(d, s, d, s')
    ensures s == s'
  {
    if d != [] {
      var n := |d| - 1;
      assert d == d[..n] + [d[n]] && s == s[..n] + [s[n]] && s' == s'[..n] + [s'[n]];
      MulMonotone(1, Prod(d[..n]), d[n]);
      InnermostRun(d[..n], s[..n], d[n], s[n], 1);
      InnermostRun(d[..n], s'[..n], d[n], s'[n], 1);
      assert Offset(d, s, 1) == Offset(d, s', 1);
      forall k: nat | k < Prod(d[..n]) ensures Offset(d[..n], s[..n], k) == Offset(d[..n], s'[..n], k) {
        MulStrict(k, Prod(d[..n]), d[n]);
        ModOfMultiple(k, d[n]);
        assert Offset(d, s, k * d[n]) == Offset(d, s', k * d[n]);
      }
      StridesUnique(d[..n], s[..n], s'[..n]);
    }
  }
}
