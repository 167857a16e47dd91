/** Permutations given by index sequences, as the result of a sort. */
module Permutations {

  /** `p` lists every index below `n` exactly once. */
  ghost predicate IsPermutation(p: seq<nat>, n: nat) {
    && |p| == n
    && (forall i :: 0 <= i < n ==> p[i] < n)
    && (forall i, j :: 0 <= i < j < n ==> p[i] != p[j])
  }

  function Permute<T>(s: seq<T>, p: seq<nat>): (r: seq<T>)
    requires forall i :: 0 <= i < |p| ==> p[i] < |s|
    ensures |r| == |p|
  {
    seq(|p|, i requires 0 <= i < |p| => s[p[i]])
  }

  /** A sequence without repetitions is as long as the set of its elements. */
  lemma {:induction false} DistinctCardinality<T>(s: seq<T>)
    requires forall i, j :: 0 <= i < j < |s| ==> s[i] != s[j]
    ensures |set x | x in s| == |s|
  {
    if s == [] {
      assert (set x | x in s) == {};
    } else {
      var n := |s| - 1;
      DistinctCardinality(s[..n]);
      assert s[..n] + [s[n]] == s;
      assert (set x | x in s) == (set x | x in s[..n]) + {s[n]};
      assert s[n] !in s[..n];
    }
  }

  function NatsBelow(n: nat): (r: set<nat>)
    ensures |r| == n
    ensures forall i: nat :: i in r <==> i < n
  {
    if n == 0 then {} else NatsBelow(n - 1) + {n - 1}
  }

  lemma {:induction false} SubsetCardinality<T>(a: set<T>, b: set<T>)
    requires a <= b
    ensures |a| <= |b|
    ensures |a| == |b| ==> a == b
  {
    assert b == a + (b - a);
  }

  lemma {:induction false} PermutationIsOnto(p: seq<nat>, n: nat, k: nat)
    requires IsPermutation(p, n) && k < n
    ensures k in p
  {
    DistinctCardinality(p);
    var hit := set i | i in p;
    SubsetCardinality(hit, NatsBelow(n));
    assert k in hit;
  }

  /** Dropping the entry that holds the largest index leaves a permutation of the rest. */
  lemma {:induction false} PermutationWithoutLargest(p: seq<nat>, n: nat, j: nat)
    requires IsPermutation(p, n + 1) && j <= n && p[j] == n
    ensures IsPermutation(p[..j] + p[j + 1..], n)
  {
    var p' := p[..j] + p[j + 1..];
    forall i | 0 <= i < n ensures p'[i] < n {
      var i' := if i < j then i else i + 1;
      assert p'[i] == p[i'] && p[i'] != p[j];
    }
  }

  lemma {:induction false} PermuteByInsertion<T>(s: seq<T>, p: seq<nat>, n: nat, j: nat)
    requires IsPermutation(p, n + 1) && |s| == n + 1 && j <= n && p[j] == n
    requires IsPermutation(p[..j] + p[j + 1..], n)
    ensures var r' := Permute(s[..n], p[..j] + p[j + 1..]);
      Permute(s, p) == r'[..j] + [s[n]] + r'[j..]
  {
  }

  lemma {:induction false} InsertionElements<T>(s: seq<T>, j: nat, x: T)
    requires j <= |s|
    ensures multiset(s[..j] + [x] + s[j..]) == multiset(s) + multiset{x}
  {
    assert s == s[..j] + s[j..];
  }

  lemma {:induction false} MultisetCancel<T>(a: multiset<T>, b: multiset<T>, x: T)
    requires a + multiset{x} == b + multiset{x}
    ensures a == b
  {
    assert a == a + multiset{x} - multiset{x};
    assert b == b + multiset{x} - multiset{x};
  }

  lemma {:induction false} PermuteKeepsElements<T>(s: seq<T>, p: seq<nat>)
    requires IsPermutation(p, |s|)
    ensures multiset(Permute(s, p)) == multiset(s)
  {
    hide Permute;
    if s == [] {
      assert Permute(s, p) == [];
    } else {
      var n := |s| - 1;
      PermutationIsOnto(p, n + 1, n);
      var j :| 0 <= j <= n && p[j] == n;
      PermutationWithoutLargest(p, n, j);
      var p' := p[..j] + p[j + 1..];
      PermuteKeepsElements(s[..n], p');
      PermuteByInsertion(s, p, n, j);
      SameElementsInserted(Permute(s[..n], p'), s[..n], j, s[n]);
      assert s == s[..n] + [s[n]];
    }
  }

  lemma {:induction false} SameElementsInserted<T>(a: seq<T>, b: seq<T>, j: nat, x: T)
    requires j <= |a| && multiset(a) == multiset(b)
    ensures multiset(a[..j] + [x] + a[j..]) == multiset(b + [x])
  {
    InsertionElements(a, j, x);
  }
}
