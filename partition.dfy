/** What pass 2 delivers, as a property of the graph alone: a partition of
    the vertices into their strongly connected components. Two runs that
    deliver such partitions (whatever neighbour each DFS step chose) agree
    on the multiset of component sizes, and so on the report. */
module Partition {
  import opened Seqs
  import opened Digraph
  import opened SecondPass
  import opened Report

  /** One size, root and component per component found: each component is
      the strongly connected component of its root and has the listed size
      (at least 1); the components are disjoint, cover every vertex, and
      their sizes add up to the number of vertices. */
  ghost predicate SccPartition(g: Graph, sizes: seq<nat>, roots: seq<nat>, comps: seq<set<nat>>)
  {
    |sizes| == |roots| == |comps| &&
    (forall c :: 0 <= c < |comps| ==>
      roots[c] < g.Size() && comps[c] == SccOf(g.outgoing, roots[c]) &&
      sizes[c] == |comps[c]| && sizes[c] >= 1) &&
    Disjoint(comps) && Union(comps) == Range(g.Size()) && Sum(sizes) == g.Size()
  }

  /** Any member of a component has that component as its own. */
  lemma SccOfMember(adj: seq<set<nat>>, r: nat, v: nat)
    requires v in SccOf(adj, r)
    ensures SccOf(adj, v) == SccOf(adj, r)
  {
    forall w | w in SccOf(adj, v) ensures w in SccOf(adj, r) {
      SameSccTrans(adj, r, v, w);
    }
    forall w | w in SccOf(adj, r) ensures w in SccOf(adj, v) {
      SameSccTrans(adj, v, r, w);
    }
  }

  /** Every component of one partition is a component of the other. */
  lemma SameComponents(g: Graph, s1: seq<nat>, r1: seq<nat>, c1: seq<set<nat>>,
                       s2: seq<nat>, r2: seq<nat>, c2: seq<set<nat>>)
    requires SccPartition(g, s1, r1, c1) && SccPartition(g, s2, r2, c2)
    ensures forall comp :: comp in c1 ==> comp in c2
  {
    RangeMembers(g.Size());
    forall comp | comp in c1 ensures comp in c2 {
      var c :| 0 <= c < |c1| && c1[c] == comp;
      var r := r1[c];
      UnionMembers(c2, r);
      assert r in Union(c2);
      var d :| 0 <= d < |c2| && r in c2[d];
      SccOfMember(g.outgoing, r2[d], r);
      ReachSelf(g.outgoing, r);
      assert r in SccOf(g.outgoing, r);
      assert c2[d] == comp;
    }
  }

  /** Disjoint non-empty components are pairwise different. */
  lemma DisjointDistinct(comps: seq<set<nat>>)
    requires Disjoint(comps) && forall c :: 0 <= c < |comps| ==> |comps[c]| >= 1
    ensures Distinct(comps)
  {
    forall i, j | 0 <= i < j < |comps| ensures comps[i] != comps[j] {
      assert comps[i] != {};
      if forall x :: x !in comps[i] {
        assert false;
      }
      var x :| x in comps[i];
      assert x !in comps[i] * comps[j];
    }
  }

  /** s with the entry at position d taken out. */
  function Without<T>(s: seq<T>, d: nat): (r: seq<T>)
    requires d < |s|
    ensures |r| == |s| - 1
    ensures forall k :: 0 <= k < |r| ==> r[k] == if k < d then s[k] else s[k + 1]
    ensures multiset(s) == multiset(r) + multiset{s[d]}
  {
    assert s == s[..d] + [s[d]] + s[d + 1..];
    s[..d] + s[d + 1..]
  }

  /** Taking the last set of a and the same set out of b leaves two lists
      that still hold the same distinct sets. */
  lemma WithoutLast(a: seq<set<nat>>, b: seq<set<nat>>, d: nat)
    requires Distinct(a) && Distinct(b) && forall comp :: comp in a <==> comp in b
    requires |a| > 0 && d < |b| && b[d] == a[|a| - 1]
    ensures Distinct(a[..|a| - 1]) && Distinct(Without(b, d))
    ensures forall comp :: comp in a[..|a| - 1] <==> comp in Without(b, d)
  {
    var n := |a| - 1;
    var a', b' := a[..n], Without(b, d);
    forall x | x in a' ensures x in b' {
      var k :| 0 <= k < n && a[k] == x;
      assert x in b;
      var l :| 0 <= l < |b| && b[l] == x;
      assert l != d;
      if l < d {
        assert b'[l] == x;
      } else {
        assert b'[l - 1] == x;
      }
    }
    forall x | x in b' ensures x in a' {
      var k :| 0 <= k < |b'| && b'[k] == x;
      assert x != a[n];
      assert x in a;
      var l :| 0 <= l < |a| && a[l] == x;
      assert a'[l] == x;
    }
  }

  lemma HeadIn(b: seq<set<nat>>)
    ensures b != [] ==> b[0] in b
  {
  }

  /** Two lists holding the same distinct sets, each with a list of the
      sets' sizes, have the same multiset of sizes. */
  lemma {:induction false} PartitionSizes(a: seq<set<nat>>, sa: seq<nat>, b: seq<set<nat>>, sb: seq<nat>)
    requires |sa| == |a| && |sb| == |b|
    requires forall c :: 0 <= c < |a| ==> sa[c] == |a[c]|
    requires forall c :: 0 <= c < |b| ==> sb[c] == |b[c]|
    requires Distinct(a) && Distinct(b)
    requires forall comp :: comp in a <==> comp in b
    ensures multiset(sa) == multiset(sb)
    decreases |a|
  {
    if a == [] {
      if b != [] {
        HeadIn(b);
        assert false;
      }
    } else {
      var n := |a| - 1;
      assert a[n] in b;
      var d :| 0 <= d < |b| && b[d] == a[n];
      WithoutLast(a, b, d);
      PartitionSizes(a[..n], sa[..n], Without(b, d), Without(sb, d));
      assert sa == sa[..n] + [sa[n]];
    }
  }

  /** Whatever order the DFS steps took, two partitions into strongly
      connected components have the same sizes, up to order, and give the
      same report. */
  lemma RunsAgree(g: Graph, s1: seq<nat>, r1: seq<nat>, c1: seq<set<nat>>,
                  s2: seq<nat>, r2: seq<nat>, c2: seq<set<nat>>)
    requires SccPartition(g, s1, r1, c1) && SccPartition(g, s2, r2, c2)
    ensures multiset(s1) == multiset(s2)
    ensures LargestFive(s1) == LargestFive(s2)
  {
    SameComponents(g, s1, r1, c1, s2, r2, c2);
    SameComponents(g, s2, r2, c2, s1, r1, c1);
    DisjointDistinct(c1);
    DisjointDistinct(c2);
    PartitionSizes(c1, s1, c2, s2);
    SortedUnique(SortDescending(s1), SortDescending(s2));
  }
}
