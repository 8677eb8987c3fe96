/** Shaping the answer: the component sizes are padded with zeros to at
    least five entries, sorted in decreasing order, and the first five are
    reported. */
module Report {

  /** Each entry is at least the ones after it. */
  predicate NonIncreasing(s: seq<nat>)
  {
    forall i, j :: 0 <= i < j < |s| ==> s[i] >= s[j]
  }

  function Zeros(n: nat): (z: seq<nat>)
    ensures |z| == n && forall i :: 0 <= i < n ==> z[i] == 0
  {
    seq(n, i => 0)
  }

  /** x inserted into a non-increasing list before the first smaller entry. */
  function Insert(x: nat, s: seq<nat>): (r: seq<nat>)
    requires NonIncreasing(s)
    ensures |r| == |s| + 1 && multiset(r) == multiset(s) + multiset{x}
    ensures NonIncreasing(r)
  {
    if s == [] || x >= s[0] then
      [x] + s
    else
      assert s == [s[0]] + s[1..];
      assert forall i :: 0 <= i < |s[1..]| ==> s[1..][i] == s[i + 1] <= s[0];
      var rest := Insert(x, s[1..]);
      BoundedRest(s[0], x, s[1..], rest);
      [s[0]] + rest
  }

  /** Inserting an entry no larger than h among entries no larger than h
      leaves every entry no larger than h, so h can go in front. */
  lemma BoundedRest(h: nat, x: nat, t: seq<nat>, rest: seq<nat>)
    requires x <= h && forall i :: 0 <= i < |t| ==> t[i] <= h
    requires multiset(rest) == multiset(t) + multiset{x} && NonIncreasing(rest)
    ensures NonIncreasing([h] + rest)
  {
    forall i | 0 <= i < |rest| ensures rest[i] <= h {
      assert rest[i] in multiset(rest);
      if rest[i] != x {
        assert rest[i] in multiset(t);
        assert rest[i] in t;
      }
    }
  }

  /** The list sorted in decreasing order: what `sort(reverse=True)` leaves. */
  function SortDescending(s: seq<nat>): (r: seq<nat>)
    ensures |r| == |s| && multiset(r) == multiset(s) && NonIncreasing(r)
  {
    if s == [] then []
    else
      assert s == s[..|s| - 1] + [s[|s| - 1]];
      Insert(s[|s| - 1], SortDescending(s[..|s| - 1]))
  }

  /** There is only one non-increasing arrangement of a collection of
      sizes, so any sort in decreasing order gives the same list. */
  lemma {:induction false} SortedUnique(a: seq<nat>, b: seq<nat>)
    requires NonIncreasing(a) && NonIncreasing(b) && multiset(a) == multiset(b)
    ensures a == b
    decreases |a|
  {
    if a != [] {
      assert |b| == |a| by {
        assert |multiset(a)| == |a| && |multiset(b)| == |b|;
      }
      assert a[0] in multiset(b) && b[0] in multiset(a);
      assert a[0] in b && b[0] in a;
      assert a[0] == b[0];
      assert a == [a[0]] + a[1..] && b == [b[0]] + b[1..];
      assert multiset(a) == multiset{a[0]} + multiset(a[1..]);
      assert multiset(b) == multiset{b[0]} + multiset(b[1..]);
      assert multiset(a[1..]) == multiset(a) - multiset{a[0]};
      assert multiset(b[1..]) == multiset(b) - multiset{b[0]};
      SortedUnique(a[1..], b[1..]);
    } else {
      assert |multiset(b)| == 0;
    }
  }

  /** Appends zeros until the list has at least five entries. */
  method PadToFive(sizes: seq<nat>) returns (padded: seq<nat>)
    ensures |padded| == if |sizes| < 5 then 5 else |sizes|
    ensures padded[..|sizes|] == sizes
    ensures forall k :: |sizes| <= k < |padded| ==> padded[k] == 0
  {
    padded := sizes;
    while |padded| < 5
      invariant |sizes| <= |padded| <= if |sizes| < 5 then 5 else |sizes|
      invariant padded[..|sizes|] == sizes
      invariant forall k :: |sizes| <= k < |padded| ==> padded[k] == 0
      decreases 5 - |padded|
    {
      padded := padded + [0];
    }
  }

  /** The five largest sizes in decreasing order, zeros standing in for
      missing components: the sizes sorted, then padded to five. */
  function LargestFive(sizes: seq<nat>): (r: seq<nat>)
    ensures |r| == 5 && NonIncreasing(r)
  {
    var t := SortDescending(sizes) + Zeros(5);
    assert NonIncreasing(t);
    t[..5]
  }

  /** Pad, sort in decreasing order and keep the first five. The result is
      the five largest sizes in decreasing order, padded with zeros: when
      there are fewer than five sizes it holds them all and zeros besides,
      otherwise it holds five of them, and no size left out exceeds the
      smallest one reported. */
  method ReportLargest(sizes: seq<nat>) returns (report: seq<nat>)
    ensures |report| == 5 && NonIncreasing(report)
    ensures report == LargestFive(sizes)
    ensures |sizes| < 5 ==> multiset(report) == multiset(sizes) + multiset(Zeros(5 - |sizes|))
    ensures |sizes| >= 5 ==> multiset(report) <= multiset(sizes)
    ensures forall x :: x in multiset(sizes) - multiset(report) ==> x <= report[4]
  {
    var padded := PadToFive(sizes);
    var sorted := SortDescending(padded);
    PaddedSort(sizes, padded);
    report := sorted[..5];
    LargestFiveFacts(sizes);
  }

  /** Sorting the padded list is sorting the sizes and then padding. */
  lemma PaddedSort(sizes: seq<nat>, padded: seq<nat>)
    requires |padded| == (if |sizes| < 5 then 5 else |sizes|)
    requires padded[..|sizes|] == sizes
    requires forall k :: |sizes| <= k < |padded| ==> padded[k] == 0
    ensures |padded| >= 5 && SortDescending(padded)[..5] == LargestFive(sizes)
  {
    var p := |padded| - |sizes|;
    var s := SortDescending(sizes);
    var z := Zeros(p);
    assert padded == sizes + z;
    assert multiset(padded) == multiset(sizes) + multiset(z);
    assert multiset(s + z) == multiset(s) + multiset(z);
    AppendZeros(s, p);
    SortedUnique(SortDescending(padded), s + z);
    PrefixOfZeros(s, p);
  }

  lemma PrefixOfZeros(s: seq<nat>, p: nat)
    requires |s| + p >= 5 && (|s| < 5 ==> |s| + p == 5)
    ensures (s + Zeros(p))[..5] == (s + Zeros(5))[..5]
  {
  }

  lemma AppendZeros(s: seq<nat>, n: nat)
    requires NonIncreasing(s)
    ensures NonIncreasing(s + Zeros(n))
  {
  }

  /** In a non-increasing list, nothing after the first n entries exceeds
      the n-th. */
  lemma BeyondPrefix(t: seq<nat>, n: nat)
    requires NonIncreasing(t) && 0 < n <= |t|
    ensures forall x :: x in multiset(t[n..]) ==> x <= t[n - 1]
  {
    forall x | x in multiset(t[n..]) ensures x <= t[n - 1] {
      assert x in t[n..];
      var k :| 0 <= k < |t[n..]| && t[n..][k] == x;
      assert t[n + k] == x;
    }
  }

  lemma SplitMultiset(t: seq<nat>, n: nat)
    requires n <= |t|
    ensures multiset(t) == multiset(t[..n]) + multiset(t[n..])
  {
    assert t == t[..n] + t[n..];
  }

  lemma LargestFiveFacts(sizes: seq<nat>)
    ensures |sizes| < 5 ==> multiset(LargestFive(sizes)) == multiset(sizes) + multiset(Zeros(5 - |sizes|))
    ensures |sizes| >= 5 ==> multiset(LargestFive(sizes)) <= multiset(sizes)
    ensures forall x :: x in multiset(sizes) - multiset(LargestFive(sizes)) ==> x <= LargestFive(sizes)[4]
  {
    var s := SortDescending(sizes);
    var t := s + Zeros(5);
    var r := LargestFive(sizes);
    assert r == t[..5];
    AppendZeros(s, 5);
    SplitMultiset(t, 5);
    BeyondPrefix(t, 5);
    assert multiset(t) == multiset(s) + multiset(Zeros(5));
    if |sizes| < 5 {
      assert r == s + Zeros(5 - |sizes|);
    } else {
      assert r == s[..5];
      SplitMultiset(s, 5);
    }
  }

  /** Component sizes are at least 1, so the report lists the largest
      sizes first, each at least 1, and a zero only where fewer than five
      components exist. */
  lemma ReportOfComponents(sizes: seq<nat>)
    requires forall c :: 0 <= c < |sizes| ==> sizes[c] >= 1
    ensures forall k :: 0 <= k < 5 ==> (LargestFive(sizes)[k] == 0 <==> k >= |sizes|)
  {
    var s := SortDescending(sizes);
    var r := LargestFive(sizes);
    forall k | 0 <= k < |s| ensures s[k] >= 1 {
      assert s[k] in multiset(sizes);
      assert s[k] in sizes;
    }
    forall k | 0 <= k < 5 ensures r[k] == 0 <==> k >= |sizes| {
      assert r[k] == (s + Zeros(5))[k];
    }
  }
}
