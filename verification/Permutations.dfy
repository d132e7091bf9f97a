/** Reordering a sequence by a permutation of its indices. */
module Permutations {

  /** Every index below n occurs exactly once. */
  ghost predicate IsPermutation(perm: seq<nat>, n: nat) {
    && |perm| == n
    && (forall i :: 0 <= i < n ==> perm[i] < n)
    && (forall i, j :: 0 <= i < j < n ==> perm[i] != perm[j])
    && (forall v: nat :: v < n ==> v in perm)
  }

  function Permute<T>(s: seq<T>, perm: seq<nat>): (r: seq<T>)
    requires IsPermutation(perm, |s|)
    ensures |r| == |s| && forall i :: 0 <= i < |s| ==> r[i] == s[perm[i]]
  {
    seq(|s|, i requires 0 <= i < |s| => s[perm[i]])
  }

  /** Dropping the largest index leaves a permutation of the smaller ones. */
  lemma DropLargest(perm: seq<nat>, n: nat) returns (j: nat)
    requires 0 < n && IsPermutation(perm, n)
    ensures j < n && perm[j] == n - 1 && IsPermutation(perm[..j] + perm[j + 1..], n - 1)
  {
    assert n - 1 in perm;
    j :| 0 <= j < n && perm[j] == n - 1;
    RestIsPermutation(perm, n, j);
  }

  lemma RestIsPermutation(perm: seq<nat>, n: nat, j: nat)
    requires 0 < n && IsPermutation(perm, n) && j < n && perm[j] == n - 1
    ensures IsPermutation(perm[..j] + perm[j + 1..], n - 1)
  {
    var rest := perm[..j] + perm[j + 1..];
    forall v: nat | v < n - 1 ensures v in rest {
      assert v in perm;
      var i :| 0 <= i < n && perm[i] == v;
      assert rest[if i < j then i else i - 1] == v;
    }
  }

  /** Without the largest index, the permuted sequence lacks just the last element. */
  lemma PermuteWithout<T>(s: seq<T>, perm: seq<nat>, j: nat)
    requires s != [] && IsPermutation(perm, |s|) && j < |s| && perm[j] == |s| - 1
    requires IsPermutation(perm[..j] + perm[j + 1..], |s| - 1)
    ensures var r := Permute(s, perm);
            r[j] == s[|s| - 1] && Permute(s[..|s| - 1], perm[..j] + perm[j + 1..]) == r[..j] + r[j + 1..]
  {
    var rest, r := perm[..j] + perm[j + 1..], Permute(s, perm);
    var p := Permute(s[..|s| - 1], rest);
    assert |rest| == |s| - 1 && forall i :: 0 <= i < |rest| ==> rest[i] < |s| - 1;
    hide IsPermutation, Permute;
    forall i | 0 <= i < |s| - 1 ensures p[i] == (r[..j] + r[j + 1..])[i] {
      assert p[i] == s[..|s| - 1][rest[i]];
    }
  }

  lemma {:induction false} PermuteKeepsMultiset<T>(s: seq<T>, perm: seq<nat>)
    requires IsPermutation(perm, |s|)
    ensures multiset(Permute(s, perm)) == multiset(s)
    decreases |s|
  {
    if s != [] {
      var n := |s| - 1;
      var j := DropLargest(perm, |s|);
      var rest := perm[..j] + perm[j + 1..];
      PermuteKeepsMultiset(s[..n], rest);
      PermuteWithout(s, perm, j);
      hide IsPermutation, Permute;
      PutBack(Permute(s, perm), j);
      PutBack(s, n);
      assert s[..n] == s[..n] + s[n + 1..];
    }
  }

  lemma PutBack<T>(s: seq<T>, j: nat)
    requires j < |s|
    ensures multiset(s) == multiset(s[..j] + s[j + 1..]) + multiset{s[j]}
  {
    assert s == s[..j] + [s[j]] + s[j + 1..];
  }

  lemma Without<T>(s: seq<T>, j: nat)
    requires j < |s|
    ensures multiset(s[..j] + s[j + 1..]) == multiset(s) - multiset{s[j]}
  {
    assert s == s[..j] + [s[j]] + s[j + 1..];
  }

  /** Two sequences with the same elements: a counterpart of the last element of the first. */
  lemma Counterpart<T>(a: seq<T>, b: seq<T>) returns (j: nat)
    requires multiset(a) == multiset(b) && a != []
    ensures j < |b| && b[j] == a[|a| - 1]
    ensures multiset(a[..|a| - 1]) == multiset(b[..j] + b[j + 1..])
  {
    var n := |a| - 1;
    assert a[n] in multiset(b);
    j :| 0 <= j < |b| && b[j] == a[n];
    Without(a, n);
    assert a[..n] + a[n + 1..] == a[..n];
    Without(b, j);
  }

  /** The permutation that moves position i to the end. */
  function MoveLast(n: nat, i: nat): (perm: seq<nat>)
    requires i < n
    ensures IsPermutation(perm, n) && perm[n - 1] == i
  {
    var perm := seq(n, j requires 0 <= j < n => if j < i then j else if j < n - 1 then j + 1 else i);
    assert forall v: nat :: v < n ==> v in perm by {
      forall v: nat | v < n ensures v in perm {
        assert perm[if v < i then v else if v == i then n - 1 else v - 1] == v;
      }
    }
    perm
  }

  /** The inverse permutation. */
  lemma Inverse(perm: seq<nat>, n: nat) returns (inv: seq<nat>)
    requires IsPermutation(perm, n)
    ensures IsPermutation(inv, n)
    ensures forall i :: 0 <= i < n ==> perm[inv[i]] == i && inv[perm[i]] == i
  {
    inv := [];
    for v := 0 to n
      invariant |inv| == v
      invariant forall u :: 0 <= u < v ==> inv[u] < n && perm[inv[u]] == u
    {
      assert v in perm;
      var i: nat :| i < n && perm[i] == v;
      inv := inv + [i];
    }
    forall v: nat | v < n ensures inv[perm[v]] == v && v in inv {
      assert perm[inv[perm[v]]] == perm[v];
    }
  }

  lemma PermuteBack<T>(s: seq<T>, perm: seq<nat>, inv: seq<nat>)
    requires IsPermutation(perm, |s|) && IsPermutation(inv, |s|)
    requires forall i :: 0 <= i < |s| ==> perm[inv[i]] == i
    ensures Permute(Permute(s, perm), inv) == s
  {
  }
}
