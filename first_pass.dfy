/** Pass 1: DFS-Loop over the reversed graph (along the incoming sets),
    starting roots in descending-ID order, giving each vertex its finish
    time as it is popped. */
module FirstPass {
  import opened Seqs
  import opened Digraph
  import opened Dfs
  import opened FinishOrder

  /** The k-th vertex popped has finish time k + 1. */
  ghost predicate FinishTimes(finishTime: seq<int>, popped: seq<nat>)
  {
    forall k :: 0 <= k < |popped| ==> popped[k] < |finishTime| && finishTime[popped[k]] == k + 1
  }

  /** The finish times are exactly 1..n, one per vertex. */
  predicate IsFinishPermutation(finishTime: seq<int>)
  {
    (forall v :: 0 <= v < |finishTime| ==> 1 <= finishTime[v] <= |finishTime|) &&
    (forall u, v :: 0 <= u < v < |finishTime| ==> finishTime[u] != finishTime[v])
  }

  /** Once every vertex has been popped, the finish times are 1..n. */
  lemma FinishPermutation(finishTime: seq<int>, popped: seq<nat>)
    requires IsPermutation(popped, |finishTime|) && FinishTimes(finishTime, popped)
    ensures IsFinishPermutation(finishTime)
  {
    DistinctBelow(popped, |finishTime|);
    forall v | 0 <= v < |finishTime| ensures 1 <= finishTime[v] <= |finishTime| {
      assert v in popped;
      var k :| 0 <= k < |popped| && popped[k] == v;
    }
    forall u, v | 0 <= u < v < |finishTime| ensures finishTime[u] != finishTime[v] {
      assert u in popped && v in popped;
      var k :| 0 <= k < |popped| && popped[k] == u;
      var l :| 0 <= l < |popped| && popped[l] == v;
    }
  }

  /** Between roots, the popped vertices are exactly the explored ones. */
  lemma AllPopped(adj: seq<set<nat>>, explored: seq<bool>, popped: seq<nat>)
    requires DfsState(adj, explored, [], popped)
    requires forall v :: 0 <= v < |adj| ==> v in popped
    ensures forall v :: 0 <= v < |adj| ==> explored[v]
  {
  }

  /** What the stack loop of one pass-1 search keeps true, for the search
      from root that began with explored flags `before`, finish times
      `times` and pop record `popped`. */
  ghost predicate Finishing(g: Graph, root: nat, before: seq<bool>, times: seq<int>, popped: seq<nat>,
                            explored: seq<bool>, finishTime: seq<int>, stack: seq<nat>, popped': seq<nat>, clock: nat)
  {
    |before| == |times| == |finishTime| == g.Size() &&
    DfsState(g.incoming, explored, stack, popped') &&
    Pending(g.incoming, stack, popped') &&
    clock == |popped'| && FinishTimes(finishTime, popped') &&
    Searched(g.incoming, root, before, stack, popped, popped') &&
    (forall v :: 0 <= v < g.Size() && before[v] ==> explored[v]) &&
    (forall v :: 0 <= v < g.Size() && v !in popped' ==> finishTime[v] == times[v]) &&
    (explored[root] || stack == [root]) &&
    |popped'| + |stack| <= g.Size()
  }

  /** The explicit-stack DFS from one unexplored root along the incoming
      sets. It pops exactly the vertices reachable from the root that were
      unexplored, stamping each with the next finish time, and leaves every
      other finish time as it was. Which unexplored neighbour is pushed is
      left open, as the iteration order of Python's sets is. */
  method FinishFrom(g: Graph, root: nat, explored: array<bool>, finishTime: array<int>,
                    clock: nat, ghost popped: seq<nat>)
    returns (clock': nat, ghost popped': seq<nat>)
    requires g.Valid() && explored.Length == g.Size() && finishTime.Length == g.Size()
    requires root < g.Size() && !explored[root]
    requires DfsState(g.incoming, explored[..], [], popped) && Pending(g.incoming, [], popped)
    requires clock == |popped| && FinishTimes(finishTime[..], popped)
    modifies explored, finishTime
    ensures DfsState(g.incoming, explored[..], [], popped') && Pending(g.incoming, [], popped')
    ensures clock' == |popped'| && FinishTimes(finishTime[..], popped')
    ensures |popped'| > |popped| && popped'[..|popped|] == popped && root in popped'
    ensures Elements(popped'[|popped|..]) == Component(g.incoming, old(explored[..]), root)
    ensures forall v :: 0 <= v < g.Size() && v !in popped'[|popped|..] ==> finishTime[v] == old(finishTime[v])
  {
    ghost var before := explored[..];
    ghost var times := finishTime[..];
    var stack := [root];
    clock', popped' := clock, popped;
    SearchStart(g.incoming, root, before, popped);
    StartAt(g.incoming, explored[..], popped, root);
    PendingGrow(g.incoming, [], popped, root);
    StateBound(g.incoming, explored[..], [root], popped);
    while stack != []
      invariant Finishing(g, root, before, times, popped, explored[..], finishTime[..], stack, popped', clock')
      decreases 2 * (g.Size() - |popped'|) - |stack|
    {
      stack, clock', popped' := FinishStep(g, root, explored, finishTime, stack, clock', before, times, popped, popped');
    }
    ComponentPopped(g.incoming, before, explored[..], popped, popped', root);
    Untouched(times, finishTime[..], popped, popped');
  }

  /** One turn of the stack loop: the top is marked explored; then an
      unexplored incoming neighbour of it is pushed, or, when there is
      none, the top is popped and stamped with the next finish time. */
  method FinishStep(g: Graph, root: nat, explored: array<bool>, finishTime: array<int>,
                    stack: seq<nat>, clock: nat, ghost before: seq<bool>, ghost times: seq<int>,
                    ghost popped: seq<nat>, ghost popped': seq<nat>)
    returns (stack': seq<nat>, clock': nat, ghost popped'': seq<nat>)
    requires g.Valid() && explored.Length == g.Size() && finishTime.Length == g.Size() && stack != []
    requires Finishing(g, root, before, times, popped, explored[..], finishTime[..], stack, popped', clock)
    modifies explored, finishTime
    ensures Finishing(g, root, before, times, popped, explored[..], finishTime[..], stack', popped'', clock')
    ensures 2 * (g.Size() - |popped''|) - |stack'| < 2 * (g.Size() - |popped'|) - |stack|
    ensures 0 <= 2 * (g.Size() - |popped''|) - |stack'|
  {
    var vertex := stack[|stack| - 1];
    MarkTop(g.incoming, explored[..], stack, popped');
    explored[vertex] := true;
    if w :| w in g.incoming[vertex] && !explored[w] {
      PushNeighbour(g.incoming, explored[..], stack, popped', w);
      PendingGrow(g.incoming, stack, popped', w);
      SearchPush(g.incoming, root, before, stack, popped, popped', w);
      stack', clock', popped'' := stack + [w], clock, popped';
    } else {
      PopTop(g.incoming, explored[..], stack, popped');
      PendingPop(g.incoming, explored[..], stack, popped');
      SearchPop(g.incoming, root, before, stack, popped, popped');
      assert vertex !in popped';
      stack' := stack[..|stack| - 1];
      clock' := clock + 1;
      finishTime[vertex] := clock';
      popped'' := popped' + [vertex];
    }
    StateBound(g.incoming, explored[..], stack', popped'');
  }

  /** A finish time changes only when its vertex is popped: the vertices
      popped before keep the times they had, and the others were never
      stamped. */
  lemma Untouched(times: seq<int>, finishTime: seq<int>, popped: seq<nat>, popped': seq<nat>)
    requires |times| == |finishTime|
    requires FinishTimes(times, popped) && FinishTimes(finishTime, popped')
    requires |popped'| >= |popped| && popped'[..|popped|] == popped
    requires forall v :: 0 <= v < |times| && v !in popped' ==> finishTime[v] == times[v]
    ensures forall v :: 0 <= v < |times| && v !in popped'[|popped|..] ==> finishTime[v] == times[v]
  {
    forall v | 0 <= v < |times| && v !in popped'[|popped|..] ensures finishTime[v] == times[v] {
      if v in popped {
        var k :| 0 <= k < |popped| && popped[k] == v;
        assert popped'[k] == v;
      } else {
        assert popped' == popped + popped'[|popped|..];
      }
    }
  }

  /** The pass-1 DFS-Loop: every vertex ends explored, each is popped once,
      the finish times are exactly 1..N, and their order has the finishing
      property of Kosaraju's algorithm. */
  method AssignFinishTimes(g: Graph, explored: array<bool>, finishTime: array<int>)
    returns (ghost popped: seq<nat>)
    requires g.Valid() && explored.Length == g.Size() && finishTime.Length == g.Size()
    requires forall v :: 0 <= v < g.Size() ==> !explored[v]
    modifies explored, finishTime
    ensures forall v :: 0 <= v < g.Size() ==> explored[v]
    ensures IsPermutation(popped, g.Size())
    ensures forall k :: 0 <= k < |popped| ==> finishTime[popped[k]] == k + 1
    ensures IsFinishPermutation(finishTime[..])
    ensures SccOrder(g.incoming, popped)
  {
    var finishClock := 0;
    popped := [];
    PendingEmpty(g.incoming);
    var i := g.Size();
    while i > 0
      invariant 0 <= i <= g.Size()
      invariant DfsState(g.incoming, explored[..], [], popped) && Pending(g.incoming, [], popped)
      invariant finishClock == |popped| && FinishTimes(finishTime[..], popped)
      invariant forall v :: i <= v < g.Size() ==> v in popped
    {
      i := i - 1;
      if !explored[i] {
        ghost var before := popped;
        finishClock, popped := FinishFrom(g, i, explored, finishTime, finishClock, popped);
        forall v | i < v < g.Size() ensures v in popped {
          assert v in before;
          var k :| 0 <= k < |before| && before[k] == v;
          assert popped[k] == v;
        }
      } else {
        assert i in popped;
      }
    }
    PendingIdle(g.incoming, popped);
    DistinctBelow(popped, g.Size());
    AllPopped(g.incoming, explored[..], popped);
    FinishPermutation(finishTime[..], popped);
  }
}
