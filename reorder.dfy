/** Between the passes: the vertex list is sorted by finish time, and every
    vertex is marked unexplored again. */
module Reorder {
  import opened Seqs
  import opened FirstPass

  /** Sorting a list of the n vertices by their finish times, which are
      the distinct values 1..n: afterwards the vertex at position k is the
      one that finished (k+1)-th. Each vertex is placed at the position its
      finish time names and the list is then overwritten with the result. */
  method SortByFinishTime(vertices: array<nat>, finishTime: array<int>)
    requires vertices.Length == finishTime.Length
    requires IsPermutation(vertices[..], vertices.Length)
    requires IsFinishPermutation(finishTime[..])
    modifies vertices
    ensures IsPermutation(vertices[..], vertices.Length)
    ensures FinishTimes(finishTime[..], vertices[..])
  {
    var placed := PlaceByFinishTime(finishTime);
    var k := 0;
    while k < vertices.Length
      invariant 0 <= k <= vertices.Length
      invariant vertices[..k] == placed[..k]
      modifies vertices
    {
      vertices[k] := placed[k];
      k := k + 1;
    }
    assert vertices[..] == placed[..];
  }

  /** A fresh list holding each vertex at the position its finish time names. */
  method PlaceByFinishTime(finishTime: array<int>) returns (placed: array<nat>)
    requires IsFinishPermutation(finishTime[..])
    ensures fresh(placed) && placed.Length == finishTime.Length
    ensures IsPermutation(placed[..], placed.Length)
    ensures FinishTimes(finishTime[..], placed[..])
  {
    placed := new nat[finishTime.Length];
    var v := 0;
    while v < finishTime.Length
      invariant 0 <= v <= finishTime.Length
      invariant forall u :: 0 <= u < v ==> placed[finishTime[u] - 1] == u
      modifies placed
    {
      placed[finishTime[v] - 1] := v;
      v := v + 1;
    }
    PlacedByFinishTime(placed[..], finishTime[..]);
  }

  /** A list in which every vertex sits at the position its finish time
      names lists every vertex once, in finishing order. */
  lemma PlacedByFinishTime(placed: seq<nat>, finishTime: seq<int>)
    requires |placed| == |finishTime| && IsFinishPermutation(finishTime)
    requires forall u :: 0 <= u < |finishTime| ==> placed[finishTime[u] - 1] == u
    ensures IsPermutation(placed, |placed|) && FinishTimes(finishTime, placed)
  {
    InjectiveOnto(finishTime);
    forall k | 0 <= k < |placed|
      ensures placed[k] < |finishTime| && finishTime[placed[k]] == k + 1
    {
      assert k + 1 in finishTime;
      var u :| 0 <= u < |finishTime| && finishTime[u] == k + 1;
      assert placed[k] == u;
    }
    forall i, j | 0 <= i < j < |placed| ensures placed[i] != placed[j] {
      assert finishTime[placed[i]] == i + 1 && finishTime[placed[j]] == j + 1;
    }
  }

  /** Listing vertices by finish time lists them in increasing finish time. */
  lemma FinishOrderAscending(finishTime: seq<int>, order: seq<nat>)
    requires FinishTimes(finishTime, order)
    ensures forall i, j :: 0 <= i < j < |order| ==> finishTime[order[i]] < finishTime[order[j]]
  {
  }

  /** Two vertex lists that agree with the same finish times, which are
      distinct, are the same list. */
  lemma FinishOrderUnique(finishTime: seq<int>, a: seq<nat>, b: seq<nat>)
    requires IsFinishPermutation(finishTime)
    requires FinishTimes(finishTime, a) && FinishTimes(finishTime, b) && |a| == |b|
    ensures a == b
  {
    forall k | 0 <= k < |a| ensures a[k] == b[k] {
      assert finishTime[a[k]] == finishTime[b[k]];
    }
  }

  /** Marking every vertex of the list unexplored. */
  method ResetExplored(vertices: array<nat>, explored: array<bool>)
    requires IsPermutation(vertices[..], explored.Length)
    modifies explored
    ensures forall v :: 0 <= v < explored.Length ==> !explored[v]
  {
    var k := 0;
    while k < vertices.Length
      invariant 0 <= k <= vertices.Length
      invariant forall j :: 0 <= j < k ==> !explored[vertices[j]]
    {
      explored[vertices[k]] := false;
      k := k + 1;
    }
    DistinctBelow(vertices[..], explored.Length);
    forall v | 0 <= v < explored.Length ensures !explored[v] {
      assert v in vertices[..];
    }
  }
}
