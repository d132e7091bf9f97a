/** Disjoint sets with path compression and union by rank. */
module DisjointSets {
  import opened Partitions

  class UnionFind {
    var parents: seq<nat>
    var ranks: seq<nat>
    var sizes: seq<nat>
    /** The pairs merged so far, in order. */
    ghost var merges: seq<(nat, nat)>

    ghost function State(): Sets
      reads this
    {
      Sets(Forest(parents, ranks), sizes, merges)
    }

    ghost predicate Valid()
      reads this
    {
      State().Valid()
    }

    /** The root of x: equal roots are one class. */
    ghost function RootOf(x: nat): nat
      requires Valid() && x < |parents|
      reads this
    {
      Root(State().forest, x)
    }

    constructor (n: nat)
      ensures Valid() && |parents| == n && merges == []
      ensures forall x :: 0 <= x < n ==> RootOf(x) == x
    {
      parents := seq(n, i => i);
      ranks := seq(n, _ => 0);
      sizes := seq(n, _ => 1);
      merges := [];
      new;
      Singletons(n, State());
    }

    /** Finds the root of x and points every node on the way directly at it. */
    method Representative(x: nat) returns (r: nat)
      requires Valid() && x < |parents|
      modifies this`parents
      ensures Valid() && |parents| == old(|parents|)
      ensures r == old(RootOf(x)) && r < |parents| && parents[r] == r
      ensures SameRoots(old(State().forest), State().forest)
      ensures parents[x] == r
      decreases |parents| - ranks[x]
    {
      if parents[x] == x {
        return x;
      }
      ParentSharesRoot(State().forest, x);
      r := Representative(parents[x]);
      Compress(x, r);
    }

    /** Points x at its root r. */
    method Compress(x: nat, r: nat)
      requires Valid() && x < |parents| && r == RootOf(x)
      modifies this`parents
      ensures Valid() && parents == old(parents)[x := r]
      ensures SameRoots(old(State().forest), State().forest)
    {
      hide Sets.Valid, Root, Class, Labels, Pow2, Forest.Valid, SameRoots;
      ghost var s := State();
      Shape(s);
      CompressKeepsSets(s, x, r);
      parents := parents[x := r];
      assert State().forest == Compressed(s.forest, x, r);
    }

    /** Joins the classes of x and y. */
    method Merge(x: nat, y: nat)
      requires Valid() && x < |parents| && y < |parents|
      modifies this
      ensures Valid() && |parents| == old(|parents|)
      ensures merges == old(merges) + [(x, y)]
      ensures MergedRoots(old(State().forest), State().forest, x, y)
      ensures RootOf(x) == if old(ranks[RootOf(x)]) < old(ranks[RootOf(y)]) then old(RootOf(y)) else old(RootOf(x))
    {
      hide Sets.Valid, Root, Class, Labels, Pow2, Forest.Valid;
      Shape(State());
      var x' := Representative(x);
      var y' := Representative(y);
      ghost var s := State();
      merges := merges + [(x, y)];
      if x' == y' {
        RepeatedMerge(s, x, y);
        return;
      }
      var top, low := x', y';
      if ranks[x'] < ranks[y'] {
        top, low := y', x';
      }
      Hang(top, low, s, x, y);
    }

    /** Hangs root `low` under root `top`, which is at least as high. */
    method Hang(top: nat, low: nat, ghost s: Sets, ghost x: nat, ghost y: nat)
      requires s.Valid() && State() == s.(merges := s.merges + [(x, y)])
      requires top < |s.sizes| && low < |s.sizes| && x < |s.sizes| && y < |s.sizes| && top != low
      requires RootsAre(s.forest, x, y, top, low)
      requires parents[top] == top && parents[low] == low && ranks[low] <= ranks[top]
      modifies this`parents, this`ranks, this`sizes
      ensures CanLink(s.forest, top, low) && State() == Joined(s, top, low, x, y) && Valid()
      ensures forall z: nat :: z < |s.sizes| ==>
                Root(State().forest, z) == if Root(s.forest, z) == low then top else Root(s.forest, z)
    {
      hide Sets.Valid, Root, Class, Labels, Pow2, Forest.Valid, CanLink, Joined, Linked, RootsAre;
      Shape(s);
      RanksAllowLink(s, top, low);
      JoinKeepsSets(s, top, low, x, y);
      JoinedFields(s, top, low, x, y);
      parents := parents[low := top];
      sizes := sizes[top := sizes[top] + sizes[low]];
      if ranks[top] == ranks[low] {
        ranks := ranks[top := ranks[top] + 1];
      }
      assert State() == Joined(s, top, low, x, y);
    }

    method IsSame(x: nat, y: nat) returns (b: bool)
      requires Valid() && x < |parents| && y < |parents|
      modifies this`parents
      ensures Valid() && |parents| == old(|parents|)
      ensures SameRoots(old(State().forest), State().forest)
      ensures b <==> State().Merged(x, y)
    {
      var x' := Representative(x);
      var y' := Representative(y);
      b := x' == y';
      assert RootOf(x) == x' && RootOf(y) == y';
    }

    /** The number of elements merged with x, itself included. */
    method Size(x: nat) returns (s: nat)
      requires Valid() && x < |parents|
      modifies this`parents
      ensures Valid() && |parents| == old(|parents|)
      ensures SameRoots(old(State().forest), State().forest)
      ensures s == |set z | z in Below(|parents|) && State().Merged(x, z)|
    {
      var r := Representative(x);
      s := sizes[r];
      assert State().SizeIsRight(r);
      assert RootOf(x) == r;
      ClassByMerges(State(), x);
    }

    /** All classes, each in ascending order and each exactly once; the order of the classes
        is that of a hash map and so left open. */
    method Groups() returns (groups: seq<seq<nat>>)
      requires Valid()
      modifies this`parents
      ensures Valid() && |parents| == old(|parents|)
      ensures SameRoots(old(State().forest), State().forest)
      ensures AreGroups(State().forest, groups)
    {
      hide Sets.Valid, Root, Class, Labels, Pow2, Forest.Valid, TableUpTo, AreGroups, Collected;
      Shape(State());
      StartTable(State().forest);
      var table: map<nat, seq<nat>> := map[];
      for i := 0 to |parents|
        invariant Valid() && |parents| == old(|parents|)
        invariant SameRoots(old(State().forest), State().forest)
        invariant State().forest.Valid() && TableUpTo(State().forest, table, i)
      {
        ghost var f' := State().forest;
        var repr := Representative(i);
        ghost var f, table' := State().forest, table;
        Shape(State());
        assert RootOf(i) == repr;
        TableKept(f', f, table, i);
        table := table[repr := (if repr in table then table[repr] else []) + [i]];
        TableExtended(f, table', i);
      }
      RowsDiffer(State().forest, table);
      groups := Rows(table);
      CollectedAll(State().forest, table, groups);
    }

    /** The table's rows, in some order. */
    static method Rows(table: map<nat, seq<nat>>) returns (groups: seq<seq<nat>>)
      requires forall q, q' :: q in table && q' in table && q != q' ==> table[q] != table[q']
      ensures Collected(table, table.Keys, groups)
    {
      groups := [];
      var left := table.Keys;
      assert table.Keys - left == {};
      while left != {}
        invariant left <= table.Keys
        invariant Collected(table, table.Keys - left, groups)
        decreases |left|
      {
        var r :| r in left;
        assert table.Keys - (left - {r}) == (table.Keys - left) + {r};
        CollectedOneMore(table, table.Keys - left, groups, r);
        groups := groups + [table[r]];
        left := left - {r};
      }
      assert table.Keys - left == table.Keys;
    }
  }

  lemma ParentSharesRoot(f: Forest, x: nat)
    requires f.Valid() && x < |f.parents|
    ensures Root(f, f.parents[x]) == Root(f, x)
  {
  }

  lemma RootOfRoot(f: Forest, r: nat)
    requires f.Valid() && r < |f.parents| && f.parents[r] == r
    ensures Root(f, r) == r
  {
  }

  lemma ClassByMerges(s: Sets, x: nat)
    requires s.Valid() && x < |s.sizes|
    ensures Class(s.forest, Root(s.forest, x)) == set z | z in Below(|s.sizes|) && s.Merged(x, z)
  {
    forall z: nat | z < |s.sizes|
      ensures Root(s.forest, z) == Root(s.forest, x) <==> s.Merged(x, z)
    {
      assert s.Merged(x, z) <==> Root(s.forest, x) == Root(s.forest, z);
    }
  }

  // ----- listing the classes -----

  ghost predicate Ascending(g: seq<nat>) {
    forall i, j :: 0 <= i < j < |g| ==> g[i] < g[j]
  }

  /** g lists the members of r's class below `bound` in ascending order. */
  ghost predicate ListsClass(f: Forest, g: seq<nat>, r: nat, bound: nat)
    requires f.Valid() && bound <= |f.parents|
  {
    g != [] && Ascending(g) && forall z: nat :: z in g <==> z < bound && Root(f, z) == r
  }

  ghost predicate TableUpTo(f: Forest, table: map<nat, seq<nat>>, bound: nat)
    requires f.Valid() && bound <= |f.parents|
  {
    && (forall r :: r in table ==> ListsClass(f, table[r], r, bound))
    && (forall z: nat :: z < bound ==> Root(f, z) in table)
  }

  lemma RowExtended(f: Forest, row: seq<nat>, repr: nat, i: nat)
    requires f.Valid() && i < |f.parents| && repr == Root(f, i)
    requires Ascending(row) && forall z: nat :: z in row <==> z < i && Root(f, z) == repr
    ensures ListsClass(f, row + [i], repr, i + 1)
  {
    hide Root, Forest.Valid;
    var g := row + [i];
    forall j | 0 <= j < |row| ensures row[j] < i {
      assert row[j] in row;
    }
    forall z: nat ensures z in g <==> z < i + 1 && Root(f, z) == repr {
      assert z in g <==> z in row || z == i;
    }
  }

  /** `groups` lists every class exactly once, in ascending order within a class. */
  ghost predicate AreGroups(f: Forest, groups: seq<seq<nat>>)
    requires f.Valid()
  {
    && (forall i :: 0 <= i < |groups| ==> groups[i] != [] && groups[i][0] < |f.parents| &&
                                          ListsClass(f, groups[i], Root(f, groups[i][0]), |f.parents|))
    && (forall z: nat :: z < |f.parents| ==> InSome(groups, z))
    && (forall i, j :: 0 <= i < j < |groups| ==> groups[i] != [] && groups[j] != [] && groups[i][0] !in groups[j])
  }

  ghost predicate InSome(groups: seq<seq<nat>>, z: nat) {
    exists i :: 0 <= i < |groups| && z in groups[i]
  }

  /** In terms of the elements: each is in exactly one group, which lists the elements of its
      class in ascending order. */
  lemma GroupOf(f: Forest, groups: seq<seq<nat>>, x: nat) returns (p: nat)
    requires f.Valid() && AreGroups(f, groups) && x < |f.parents|
    ensures p < |groups| && x in groups[p]
    ensures forall q :: 0 <= q < |groups| && x in groups[q] ==> q == p
    ensures forall z: nat :: z in groups[p] <==> z < |f.parents| && Root(f, z) == Root(f, x)
    ensures forall i, j :: 0 <= i < j < |groups[p]| ==> groups[p][i] < groups[p][j]
  {
    hide Root, Forest.Valid;
    assert InSome(groups, x);
    p :| 0 <= p < |groups| && x in groups[p];
    forall q | 0 <= q < |groups| && x in groups[q] ensures q == p {
      SameGroup(f, groups, x, p, q);
    }
  }

  lemma SameGroup(f: Forest, groups: seq<seq<nat>>, x: nat, p: nat, q: nat)
    requires f.Valid() && AreGroups(f, groups) && p < |groups| && q < |groups| && x in groups[p] && x in groups[q]
    ensures p == q
  {
    hide Root, Forest.Valid;
    var a, b := groups[p][0], groups[q][0];
    assert a in groups[p] && b in groups[q];
    assert Root(f, a) == Root(f, x) == Root(f, b);
    assert a in groups[q] && b in groups[p];
  }

  lemma TableKept(f: Forest, f': Forest, table: map<nat, seq<nat>>, bound: nat)
    requires SameRoots(f, f') && bound <= |f.parents|
    ensures TableUpTo(f', table, bound) <==> TableUpTo(f, table, bound)
  {
    hide Root;
    forall r | r in table ensures ListsClass(f', table[r], r, bound) <==> ListsClass(f, table[r], r, bound) {}
  }

  lemma TableExtended(f: Forest, table: map<nat, seq<nat>>, i: nat)
    requires f.Valid() && i < |f.parents| && TableUpTo(f, table, i)
    ensures var repr := Root(f, i);
            TableUpTo(f, table[repr := (if repr in table then table[repr] else []) + [i]], i + 1)
  {
    hide Root, Forest.Valid;
    var repr := Root(f, i);
    var row := if repr in table then table[repr] else [];
    assert Ascending(row) && forall z: nat :: z in row <==> z < i && Root(f, z) == repr by {
      if repr in table { assert ListsClass(f, table[repr], repr, i); }
    }
    RowExtended(f, row, repr, i);
    forall r | r in table && r != repr ensures ListsClass(f, table[r], r, i + 1) {
      assert ListsClass(f, table[r], r, i);
    }
  }

  lemma StartTable(f: Forest)
    requires f.Valid()
    ensures TableUpTo(f, map[], 0)
  {
  }

  lemma RowsDiffer(f: Forest, table: map<nat, seq<nat>>)
    requires f.Valid() && TableUpTo(f, table, |f.parents|)
    ensures forall q, q' :: q in table && q' in table && q != q' ==> table[q] != table[q']
  {
    hide Root;
    forall q, q' | q in table && q' in table && q != q' ensures table[q] != table[q'] {
      assert ListsClass(f, table[q], q, |f.parents|) && ListsClass(f, table[q'], q', |f.parents|);
      assert table[q][0] in table[q];
    }
  }

  /** `groups` holds exactly the table's rows for `keys`, each once. */
  ghost predicate Collected(table: map<nat, seq<nat>>, keys: set<nat>, groups: seq<seq<nat>>) {
    && keys <= table.Keys
    && (forall r :: r in keys ==> table[r] in groups)
    && (forall i :: 0 <= i < |groups| ==> IsRow(table, keys, groups[i]))
    && (forall i, j :: 0 <= i < j < |groups| ==> groups[i] != groups[j])
  }

  ghost predicate IsRow(table: map<nat, seq<nat>>, keys: set<nat>, g: seq<nat>)
    requires keys <= table.Keys
  {
    exists r :: r in keys && table[r] == g
  }

  lemma CollectedOneMore(table: map<nat, seq<nat>>, keys: set<nat>, groups: seq<seq<nat>>, r: nat)
    requires Collected(table, keys, groups) && r in table && r !in keys
    requires forall q, q' :: q in table && q' in table && q != q' ==> table[q] != table[q']
    ensures Collected(table, keys + {r}, groups + [table[r]])
  {
    var more := groups + [table[r]];
    forall i | 0 <= i < |more| ensures IsRow(table, keys + {r}, more[i]) {
      if i < |groups| {
        assert IsRow(table, keys, groups[i]);
        var q :| q in keys && table[q] == groups[i];
        assert q in keys + {r};
      } else {
        assert r in keys + {r};
      }
    }
    forall i | 0 <= i < |groups| ensures groups[i] != table[r] {
      assert IsRow(table, keys, groups[i]);
      var q :| q in keys && table[q] == groups[i];
    }
  }

  lemma CollectedAll(f: Forest, table: map<nat, seq<nat>>, groups: seq<seq<nat>>)
    requires f.Valid() && TableUpTo(f, table, |f.parents|) && Collected(table, table.Keys, groups)
    ensures AreGroups(f, groups)
  {
    hide Root;
    forall i | 0 <= i < |groups|
      ensures groups[i] != [] && groups[i][0] < |f.parents| &&
              ListsClass(f, groups[i], Root(f, groups[i][0]), |f.parents|)
    {
      assert IsRow(table, table.Keys, groups[i]);
      var r :| r in table.Keys && table[r] == groups[i];
      assert groups[i][0] in groups[i];
    }
    forall z: nat | z < |f.parents| ensures InSome(groups, z) {
      assert ListsClass(f, table[Root(f, z)], Root(f, z), |f.parents|);
    }
    forall i, j | 0 <= i < j < |groups| ensures groups[i] != [] && groups[j] != [] && groups[i][0] !in groups[j] {
      if groups[i][0] in groups[j] {
        SameClassSameList(f, groups[i], groups[j], Root(f, groups[i][0]));
      }
    }
  }

  lemma SameClassSameList(f: Forest, g: seq<nat>, g': seq<nat>, r: nat)
    requires f.Valid() && ListsClass(f, g, r, |f.parents|) && ListsClass(f, g', r, |f.parents|)
    ensures g == g'
  {
    assert forall z: nat :: z in g <==> z in g';
    AscendingUnique(g, g');
  }

  lemma {:induction false} AscendingUnique(g: seq<nat>, g': seq<nat>)
    requires Ascending(g) && Ascending(g') && forall z: nat :: z in g <==> z in g'
    ensures g == g'
    decreases |g|
  {
    assert g' != [] ==> g'[0] in g';
    if g == [] {
    } else {
      assert g[|g| - 1] in g';
      var n, m := |g| - 1, |g'| - 1;
      assert g'[m] in g;
      assert g[n] == g'[m];
      forall z: nat ensures z in g[..n] <==> z in g'[..m] {
        if z in g[..n] { assert z in g && z < g[n]; assert z in g'; }
        if z in g'[..m] { assert z in g' && z < g'[m]; assert z in g; }
      }
      AscendingUnique(g[..n], g'[..m]);
      assert g == g[..n] + [g[n]] && g' == g'[..m] + [g'[m]];
    }
  }
}
