/** Facts about sequences of vertex indices used by both DFS passes. */
module Seqs {

  /** No element occurs twice. */
  predicate Distinct<T(==)>(s: seq<T>)
  {
    forall i, j :: 0 <= i < j < |s| ==> s[i] != s[j]
  }

  /** Every element is a vertex index below n. */
  predicate Below(s: seq<nat>, n: nat)
  {
    forall i :: 0 <= i < |s| ==> s[i] < n
  }

  /** s lists each of the indices 0..n-1 exactly once. */
  predicate IsPermutation(s: seq<nat>, n: nat)
  {
    |s| == n && Distinct(s) && Below(s, n)
  }

  function Elements(s: seq<nat>): set<nat>
  {
    set x | x in s
  }

  /** The indices 0..n-1. */
  function Range(n: nat): set<nat>
  {
    if n == 0 then {} else Range(n - 1) + {n - 1}
  }

  lemma {:induction false} RangeMembers(n: nat)
    ensures forall v: nat :: v in Range(n) <==> v < n
  {
    if n > 0 {
      RangeMembers(n - 1);
    }
  }

  function Sum(s: seq<nat>): nat
  {
    if s == [] then 0 else Sum(s[..|s| - 1]) + s[|s| - 1]
  }

  lemma {:induction false} RangeCard(n: nat)
    ensures |Range(n)| == n
  {
    if n > 0 {
      RangeCard(n - 1);
      RangeMembers(n - 1);
      assert n - 1 !in Range(n - 1);
    }
  }

  lemma {:induction false} DistinctCard(s: seq<nat>)
    requires Distinct(s)
    ensures |Elements(s)| == |s|
  {
    if s != [] {
      var t := s[..|s| - 1];
      DistinctCard(t);
      assert Elements(s) == Elements(t) + {s[|s| - 1]};
      assert s[|s| - 1] !in Elements(t);
    }
  }

  lemma SubsetCard(a: set<nat>, b: set<nat>)
    requires a <= b
    ensures |a| <= |b|
    ensures |a| == |b| ==> a == b
  {
    assert b == a + (b - a);
    assert a * (b - a) == {};
    if |a| == |b| {
      assert |b - a| == 0;
    }
  }

  /** A duplicate-free sequence of indices below n has at most n elements,
      and it has exactly n exactly when it holds every index below n. */
  lemma DistinctBelow(s: seq<nat>, n: nat)
    requires Distinct(s) && Below(s, n)
    ensures |s| <= n
    ensures |s| == n <==> forall v :: 0 <= v < n ==> v in s
  {
    DistinctCard(s);
    RangeCard(n);
    RangeMembers(n);
    assert Elements(s) <= Range(n);
    SubsetCard(Elements(s), Range(n));
    if forall v :: 0 <= v < n ==> v in s {
      assert Range(n) <= Elements(s);
      SubsetCard(Range(n), Elements(s));
    }
    if |s| == n {
      forall v | 0 <= v < n ensures v in s {
        assert v in Range(n);
      }
    }
  }

  /** Pigeonhole: n distinct values in 1..n take every value in 1..n. */
  lemma InjectiveOnto(f: seq<int>)
    requires forall v :: 0 <= v < |f| ==> 1 <= f[v] <= |f|
    requires forall u, v :: 0 <= u < v < |f| ==> f[u] != f[v]
    ensures forall k :: 1 <= k <= |f| ==> k in f
  {
    var s: seq<nat> := seq(|f|, i requires 0 <= i < |f| => (f[i] - 1) as nat);
    assert Distinct(s);
    DistinctBelow(s, |f|);
    forall k | 1 <= k <= |f| ensures k in f {
      assert k - 1 in s;
      var v :| 0 <= v < |s| && s[v] == k - 1;
      assert f[v] == k;
    }
  }
}
