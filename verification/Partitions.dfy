/** Forests of parent links, and the partition a list of merges generates. */
module Partitions {

  // ----- the partition, independently of any forest -----

  /** Labels after a list of merges: merging x and y gives y's label to all of x's class. */
  ghost function Labels(n: nat, merges: seq<(nat, nat)>): (r: seq<nat>)
    requires forall m :: m in merges ==> m.0 < n && m.1 < n
    ensures |r| == n
  {
    if merges == [] then seq(n, i => i)
    else
      var before := Labels(n, merges[..|merges| - 1]);
      var m := merges[|merges| - 1];
      seq(n, i requires 0 <= i < n => if before[i] == before[m.0] then before[m.1] else before[i])
  }

  ghost predicate Equivalence(n: nat, related: (nat, nat) -> bool) {
    && (forall x: nat :: x < n ==> related(x, x))
    && (forall x: nat, y: nat :: x < n && y < n && related(x, y) ==> related(y, x))
    && (forall x: nat, y: nat, z: nat :: x < n && y < n && z < n && related(x, y) && related(y, z) ==> related(x, z))
  }

  /** Equal labels are the least equivalence that relates every merged pair. */
  lemma {:induction false} LabelsAreLeast(n: nat, merges: seq<(nat, nat)>, related: (nat, nat) -> bool, x: nat, y: nat)
    requires forall m :: m in merges ==> m.0 < n && m.1 < n
    requires Equivalence(n, related) && forall m :: m in merges ==> related(m.0, m.1)
    requires x < n && y < n && Labels(n, merges)[x] == Labels(n, merges)[y]
    ensures related(x, y)
    decreases |merges|
  {
    if merges != [] {
      var rest, m := merges[..|merges| - 1], merges[|merges| - 1];
      assert m in merges;
      var before := Labels(n, rest);
      if before[x] == before[y] {
        LabelsAreLeast(n, rest, related, x, y);
      } else if before[x] == before[m.0] {
        LabelsAreLeast(n, rest, related, x, m.0);
        LabelsAreLeast(n, rest, related, m.1, y);
        assert related(x, m.1);
      } else {
        LabelsAreLeast(n, rest, related, m.0, y);
        LabelsAreLeast(n, rest, related, x, m.1);
        assert related(m.1, m.0) && related(x, m.0);
      }
    }
  }

  lemma {:induction false} LabelsRelateMerges(n: nat, merges: seq<(nat, nat)>, m: (nat, nat))
    requires forall m :: m in merges ==> m.0 < n && m.1 < n
    requires m in merges
    ensures Labels(n, merges)[m.0] == Labels(n, merges)[m.1]
    decreases |merges|
  {
    var rest := merges[..|merges| - 1];
    if m in rest {
      LabelsRelateMerges(n, rest, m);
    }
  }

  // ----- forests -----

  datatype Forest = Forest(parents: seq<nat>, ranks: seq<nat>) {
    /** Ranks rise strictly along parents, so every chain of parents ends at a root. */
    ghost predicate Valid() {
      && |parents| == |ranks|
      && (forall i :: 0 <= i < |parents| ==> parents[i] < |parents| && ranks[i] < |parents|)
      && (forall i :: 0 <= i < |parents| && parents[i] != i ==> ranks[i] < ranks[parents[i]])
    }
  }

  ghost function Root(f: Forest, x: nat): (r: nat)
    requires f.Valid() && x < |f.parents|
    ensures r < |f.parents| && f.parents[r] == r
    ensures r != x ==> f.ranks[x] < f.ranks[r]
    decreases |f.parents| - f.ranks[x]
  {
    if f.parents[x] == x then x else Root(f, f.parents[x])
  }

  /** No element changes class. */
  ghost predicate SameRoots(f: Forest, f': Forest) {
    && f.Valid() && f'.Valid() && |f'.parents| == |f.parents|
    && forall z: nat :: z < |f.parents| ==> Root(f', z) == Root(f, z)
  }

  /** The classes of x and y become one, under one of their roots; no other class changes. */
  ghost predicate MergedRoots(f: Forest, f': Forest, x: nat, y: nat) {
    && f.Valid() && f'.Valid() && |f'.parents| == |f.parents| && x < |f.parents| && y < |f.parents|
    && Root(f', x) in {Root(f, x), Root(f, y)}
    && forall z: nat :: z < |f.parents| ==>
         Root(f', z) == if Root(f, z) in {Root(f, x), Root(f, y)} then Root(f', x) else Root(f, z)
  }

  /** Pointing x directly at its root. */
  ghost function Compressed(f: Forest, x: nat, r: nat): (f': Forest)
    requires f.Valid() && x < |f.parents| && r == Root(f, x)
    ensures f'.Valid()
  {
    f.(parents := f.parents[x := r])
  }

  lemma {:induction false} CompressionKeepsRoots(f: Forest, x: nat, y: nat)
    requires f.Valid() && x < |f.parents| && y < |f.parents|
    ensures Root(Compressed(f, x, Root(f, x)), y) == Root(f, y)
    decreases |f.parents| - f.ranks[y]
  {
    var r := Root(f, x);
    var f' := Compressed(f, x, r);
    if y == x {
      assert f'.parents[r] == r;
      assert Root(f', r) == r;
    } else if f.parents[y] != y {
      CompressionKeepsRoots(f, x, f.parents[y]);
    }
  }

  ghost predicate CanLink(f: Forest, top: nat, low: nat) {
    && f.Valid() && top < |f.parents| && low < |f.parents| && top != low
    && f.parents[top] == top && f.parents[low] == low && f.ranks[low] <= f.ranks[top]
    && (f.ranks[top] == f.ranks[low] ==> f.ranks[top] + 1 < |f.parents|)
  }

  /** The forest after hanging root `low` under root `top`. */
  ghost function Linked(f: Forest, top: nat, low: nat): (f': Forest)
    requires CanLink(f, top, low)
    ensures f'.Valid() && |f'.parents| == |f.parents|
  {
    Forest(f.parents[low := top],
           if f.ranks[top] == f.ranks[low] then f.ranks[top := f.ranks[top] + 1] else f.ranks)
  }

  lemma {:induction false} LinkingJoins(f: Forest, top: nat, low: nat, y: nat)
    requires CanLink(f, top, low) && y < |f.parents|
    ensures Root(Linked(f, top, low), y) == if Root(f, y) == low then top else Root(f, y)
    decreases |f.parents| - f.ranks[y]
  {
    var f' := Linked(f, top, low);
    if y == low {
      assert f'.parents[top] == top;
      assert Root(f', top) == top;
    } else if f.parents[y] != y {
      LinkingJoins(f, top, low, f.parents[y]);
    }
  }

  // ----- sizes of classes -----

  ghost function Below(n: nat): (r: set<nat>)
    ensures |r| == n && forall x: nat :: x in r <==> x < n
  {
    if n == 0 then {} else Below(n - 1) + {n - 1}
  }

  /** The members of the class whose root is r. */
  ghost function Class(f: Forest, r: nat): (c: set<nat>)
    requires f.Valid()
    ensures |c| <= |f.parents|
  {
    var c := set x | x in Below(|f.parents|) && Root(f, x) == r;
    SubsetSize(c, Below(|f.parents|));
    c
  }

  lemma {:induction false} SubsetSize<T>(a: set<T>, b: set<T>)
    requires a <= b
    ensures |a| <= |b|
    decreases |a|
  {
    if a != {} {
      var x :| x in a;
      SubsetSize(a - {x}, b - {x});
    }
  }

  function Pow2(n: nat): (r: nat)
    ensures n < r
  {
    if n == 0 then 1 else 2 * Pow2(n - 1)
  }

  /** A forest with the size kept at every root, and the merges it stands for. */
  datatype Sets = Sets(forest: Forest, sizes: seq<nat>, merges: seq<(nat, nat)>) {
    ghost predicate Valid() {
      && forest.Valid()
      && |sizes| == |forest.parents|
      && MergesInRange()
      && (forall r :: 0 <= r < |sizes| && forest.parents[r] == r ==> SizeIsRight(r))
      && (forall x: nat, y: nat :: x < |sizes| && y < |sizes| ==> (Root(forest, x) == Root(forest, y) <==> Merged(x, y)))
    }

    ghost predicate MergesInRange() {
      forall m :: m in merges ==> m.0 < |sizes| && m.1 < |sizes|
    }

    ghost predicate SizeIsRight(r: nat)
      requires forest.Valid() && |sizes| == |forest.parents| && r < |sizes|
    {
      sizes[r] == |Class(forest, r)| && Pow2(forest.ranks[r]) <= sizes[r]
    }

    /** The merges relate x and y. */
    ghost predicate Merged(x: nat, y: nat)
      requires MergesInRange() && x < |sizes| && y < |sizes|
    {
      Labels(|sizes|, merges)[x] == Labels(|sizes|, merges)[y]
    }
  }

  /** At first every element is a class of its own. */
  lemma Singletons(n: nat, s: Sets)
    requires |s.forest.parents| == |s.forest.ranks| == |s.sizes| == n && s.merges == []
    requires forall i :: 0 <= i < n ==> s.forest.parents[i] == i && s.forest.ranks[i] == 0 && s.sizes[i] == 1
    ensures s.Valid() && forall x :: 0 <= x < n ==> Root(s.forest, x) == x
  {
    forall r | 0 <= r < n ensures s.SizeIsRight(r) {
      assert Class(s.forest, r) == {r};
    }
  }

  lemma Shape(s: Sets)
    requires s.Valid()
    ensures s.forest.Valid() && |s.sizes| == |s.forest.parents| == |s.forest.ranks| && s.MergesInRange()
  {
  }

  lemma CompressKeepsSets(s: Sets, x: nat, r: nat)
    requires s.Valid() && x < |s.sizes| && r == Root(s.forest, x)
    ensures s.(forest := Compressed(s.forest, x, r)).Valid()
    ensures SameRoots(s.forest, Compressed(s.forest, x, r))
  {
    var f, f' := s.forest, Compressed(s.forest, x, r);
    forall y: nat | y < |s.sizes| ensures Root(f', y) == Root(f, y) {
      CompressionKeepsRoots(f, x, y);
    }
    forall r | 0 <= r < |s.sizes| && f'.parents[r] == r
      ensures s.(forest := f').SizeIsRight(r)
    {
      assert f.parents[r] == r;
      assert s.SizeIsRight(r);
      assert Class(f', r) == Class(f, r);
    }
    forall y: nat, z: nat | y < |s.sizes| && z < |s.sizes|
      ensures s.(forest := f').Merged(y, z) <==> s.Merged(y, z) {}
  }

  lemma RanksAllowLink(s: Sets, top: nat, low: nat)
    requires s.Valid() && top < |s.sizes| && low < |s.sizes| && top != low
    requires s.forest.parents[top] == top && s.forest.parents[low] == low && s.forest.ranks[low] <= s.forest.ranks[top]
    ensures CanLink(s.forest, top, low)
    ensures |Class(s.forest, top)| + |Class(s.forest, low)| == |Class(s.forest, top) + Class(s.forest, low)| <= |s.sizes|
  {
    var a, b := Class(s.forest, top), Class(s.forest, low);
    assert a !! b;
    SubsetSize(a + b, Below(|s.sizes|));
    assert s.SizeIsRight(top) && s.SizeIsRight(low);
    assert Pow2(s.forest.ranks[top] + 1) == 2 * Pow2(s.forest.ranks[top]);
  }

  /** One of x and y is in the class of root top, the other in that of root low. */
  ghost predicate RootsAre(f: Forest, x: nat, y: nat, top: nat, low: nat)
    requires f.Valid() && x < |f.parents| && y < |f.parents|
  {
    (Root(f, x) == top && Root(f, y) == low) || (Root(f, x) == low && Root(f, y) == top)
  }

  /** The sets after joining the classes with roots top and low for the merge (x, y). */
  ghost function Joined(s: Sets, top: nat, low: nat, x: nat, y: nat): Sets
    requires CanLink(s.forest, top, low) && |s.sizes| == |s.forest.parents|
  {
    Sets(Linked(s.forest, top, low), s.sizes[top := s.sizes[top] + s.sizes[low]], s.merges + [(x, y)])
  }

  lemma JoinKeepsSets(s: Sets, top: nat, low: nat, x: nat, y: nat)
    requires s.Valid() && CanLink(s.forest, top, low) && x < |s.sizes| && y < |s.sizes|
    requires RootsAre(s.forest, x, y, top, low)
    requires |Class(s.forest, top)| + |Class(s.forest, low)| == |Class(s.forest, top) + Class(s.forest, low)| <= |s.sizes|
    ensures Joined(s, top, low, x, y).Valid()
    ensures forall z: nat :: z < |s.sizes| ==>
              Root(Linked(s.forest, top, low), z) == if Root(s.forest, z) == low then top else Root(s.forest, z)
  {
    hide Root, Class, Labels;
    LinkedRoots(s.forest, top, low);
    JoinSizes(s, top, low, x, y);
    JoinMerges(s, top, low, x, y);
  }

  /** The joined sets, field by field. */
  lemma JoinedFields(s: Sets, top: nat, low: nat, x: nat, y: nat)
    requires CanLink(s.forest, top, low) && |s.sizes| == |s.forest.parents| == |s.forest.ranks|
    ensures var f, t := s.forest, Joined(s, top, low, x, y);
            && t.forest.parents == f.parents[low := top] && t.sizes == s.sizes[top := s.sizes[top] + s.sizes[low]]
            && t.forest.ranks == (if f.ranks[top] == f.ranks[low] then f.ranks[top := f.ranks[top] + 1] else f.ranks)
            && t.merges == s.merges + [(x, y)] && t.forest == Linked(f, top, low)
  {
    hide Root, Class, Labels, Pow2;
  }

  lemma LinkedRoots(f: Forest, top: nat, low: nat)
    requires CanLink(f, top, low)
    ensures forall z: nat :: z < |f.parents| ==>
              Root(Linked(f, top, low), z) == if Root(f, z) == low then top else Root(f, z)
  {
    forall z: nat | z < |f.parents|
      ensures Root(Linked(f, top, low), z) == if Root(f, z) == low then top else Root(f, z)
    {
      LinkingJoins(f, top, low, z);
    }
  }

  /** Linking sends class `low` into class `top` and leaves the others alone. */
  lemma LinkedClasses(f: Forest, top: nat, low: nat)
    requires CanLink(f, top, low)
    requires forall z: nat :: z < |f.parents| ==>
               Root(Linked(f, top, low), z) == if Root(f, z) == low then top else Root(f, z)
    ensures Class(Linked(f, top, low), top) == Class(f, top) + Class(f, low)
    ensures forall r: nat :: r != top && r != low ==> Class(Linked(f, top, low), r) == Class(f, r)
  {
    hide Root, Linked, CanLink;
  }

  lemma JoinSizes(s: Sets, top: nat, low: nat, x: nat, y: nat)
    requires s.Valid() && CanLink(s.forest, top, low)
    requires |Class(s.forest, top)| + |Class(s.forest, low)| == |Class(s.forest, top) + Class(s.forest, low)|
    requires forall z: nat :: z < |s.sizes| ==>
               Root(Linked(s.forest, top, low), z) == if Root(s.forest, z) == low then top else Root(s.forest, z)
    ensures forall r :: 0 <= r < |s.sizes| && Linked(s.forest, top, low).parents[r] == r ==>
              Joined(s, top, low, x, y).SizeIsRight(r)
  {
    hide Root, Class;
    var f, s' := s.forest, Joined(s, top, low, x, y);
    LinkedClasses(f, top, low);
    assert s.SizeIsRight(top) && s.SizeIsRight(low);
    assert Pow2(f.ranks[top] + 1) == 2 * Pow2(f.ranks[top]);
    forall r | 0 <= r < |s.sizes| && s'.forest.parents[r] == r ensures s'.SizeIsRight(r) {
      if r != top {
        assert s.SizeIsRight(r);
      }
    }
  }

  lemma LabelAfter(n: nat, merges: seq<(nat, nat)>, x: nat, y: nat, z: nat)
    requires forall m :: m in merges ==> m.0 < n && m.1 < n
    requires x < n && y < n && z < n
    ensures var b := Labels(n, merges);
            Labels(n, merges + [(x, y)])[z] == if b[z] == b[x] then b[y] else b[z]
  {
    assert (merges + [(x, y)])[..|merges|] == merges;
  }

  lemma JoinMerges(s: Sets, top: nat, low: nat, x: nat, y: nat)
    requires s.Valid() && CanLink(s.forest, top, low) && x < |s.sizes| && y < |s.sizes|
    requires RootsAre(s.forest, x, y, top, low)
    requires forall z: nat :: z < |s.sizes| ==>
               Root(Linked(s.forest, top, low), z) == if Root(s.forest, z) == low then top else Root(s.forest, z)
    ensures Joined(s, top, low, x, y).MergesInRange()
    ensures forall z: nat, w: nat :: z < |s.sizes| && w < |s.sizes| ==>
              (Root(Linked(s.forest, top, low), z) == Root(Linked(s.forest, top, low), w) <==>
               Joined(s, top, low, x, y).Merged(z, w))
  {
    hide Root, Labels, Linked, CanLink;
    var s' := Joined(s, top, low, x, y);
    forall z: nat, w: nat | z < |s.sizes| && w < |s.sizes|
      ensures Root(s'.forest, z) == Root(s'.forest, w) <==> s'.Merged(z, w)
    {
      LabelAfter(|s.sizes|, s.merges, x, y, z);
      LabelAfter(|s.sizes|, s.merges, x, y, w);
      MergedCases(s, x, y, z, w);
    }
  }

  /** Equal roots are equal labels, for the four elements a merge compares. */
  lemma MergedCases(s: Sets, x: nat, y: nat, z: nat, w: nat)
    requires s.Valid() && x < |s.sizes| && y < |s.sizes| && z < |s.sizes| && w < |s.sizes|
    ensures forall i, j :: i in {x, y, z, w} && j in {x, y, z, w} ==>
              (Root(s.forest, i) == Root(s.forest, j) <==> Labels(|s.sizes|, s.merges)[i] == Labels(|s.sizes|, s.merges)[j])
  {
    forall i, j | i in {x, y, z, w} && j in {x, y, z, w}
      ensures Root(s.forest, i) == Root(s.forest, j) <==> Labels(|s.sizes|, s.merges)[i] == Labels(|s.sizes|, s.merges)[j]
    {
      assert s.Merged(i, j) <==> Root(s.forest, i) == Root(s.forest, j);
    }
  }

  /** Merging within one class changes nothing but the record of merges. */
  lemma RepeatedMerge(s: Sets, x: nat, y: nat)
    requires s.Valid() && x < |s.sizes| && y < |s.sizes| && Root(s.forest, x) == Root(s.forest, y)
    ensures s.(merges := s.merges + [(x, y)]).Valid()
  {
    var s' := s.(merges := s.merges + [(x, y)]);
    assert s'.merges[..|s'.merges| - 1] == s.merges;
    assert s.Merged(x, y);
    forall r | 0 <= r < |s.sizes| && s.forest.parents[r] == r ensures s'.SizeIsRight(r) {
      assert s.SizeIsRight(r);
    }
    forall z: nat, w: nat | z < |s.sizes| && w < |s.sizes| ensures s'.Merged(z, w) <==> s.Merged(z, w) {}
  }
}
