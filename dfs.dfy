/** The explicit-stack depth-first search shared by both passes: the state
    of one pass, and what each step of the stack loop keeps true. */
module Dfs {
  import opened Seqs
  import opened Digraph

  /** The state of a DFS pass along `adj`, part-way through the loop.
      `stack` is the explicit vertex stack; `popped` lists, in order, the
      vertices popped so far in this pass (a proof-only record).
      - neither the stack nor the pop record holds a vertex twice;
      - every stack entry is explored, except perhaps the top, which is
        marked explored when the loop next looks at it;
      - a vertex has been popped exactly when it is explored and no longer
        on the stack;
      - every neighbour of a popped vertex is explored (a vertex is popped
        only once it has no unexplored neighbour left);
      - each stack entry was pushed as a neighbour of the entry below it. */
  ghost predicate DfsState(adj: seq<set<nat>>, explored: seq<bool>, stack: seq<nat>, popped: seq<nat>)
  {
    |explored| == |adj| &&
    Below(stack, |adj|) && Below(popped, |adj|) &&
    Distinct(stack) && Distinct(popped) &&
    (forall i :: 0 <= i < |stack| - 1 ==> explored[stack[i]]) &&
    (forall v :: 0 <= v < |adj| ==> (v in popped <==> explored[v] && v !in stack)) &&
    (forall v, w {:trigger w in adj[v], v in popped} :: v in popped && w in adj[v] ==> w < |adj| && explored[w]) &&
    (forall i, j :: 0 <= i < |stack| - 1 && j == i + 1 ==> stack[j] in adj[stack[i]])
  }

  function Top(stack: seq<nat>): nat
    requires stack != []
  {
    stack[|stack| - 1]
  }

  function Pop(stack: seq<nat>): seq<nat>
    requires stack != []
  {
    stack[..|stack| - 1]
  }

  /** Pushing an unexplored start vertex on the empty stack. */
  lemma StartAt(adj: seq<set<nat>>, explored: seq<bool>, popped: seq<nat>, root: nat)
    requires DfsState(adj, explored, [], popped)
    requires root < |adj| && !explored[root]
    ensures DfsState(adj, explored, [root], popped)
  {
  }

  /** Marking the vertex on top of the stack explored. */
  lemma MarkTop(adj: seq<set<nat>>, explored: seq<bool>, stack: seq<nat>, popped: seq<nat>)
    requires DfsState(adj, explored, stack, popped) && stack != []
    ensures DfsState(adj, explored[Top(stack) := true], stack, popped)
  {
    var e := explored[Top(stack) := true];
    forall v | 0 <= v < |adj| ensures v in popped <==> e[v] && v !in stack {
      if v == Top(stack) {
        assert v in stack;
      }
    }
  }

  /** Pushing an unexplored neighbour of the (explored) top vertex. */
  lemma PushNeighbour(adj: seq<set<nat>>, explored: seq<bool>, stack: seq<nat>, popped: seq<nat>, w: nat)
    requires DfsState(adj, explored, stack, popped) && stack != []
    requires explored[Top(stack)] && w in adj[Top(stack)] && w < |adj| && !explored[w]
    ensures DfsState(adj, explored, stack + [w], popped)
  {
    var s := stack + [w];
    assert forall i :: 0 <= i < |stack| ==> explored[stack[i]];
    assert w !in stack;
    forall v | 0 <= v < |adj| ensures v in popped <==> explored[v] && v !in s {
      assert v in s <==> v in stack || v == w;
    }
  }

  /** Popping the top vertex once none of its neighbours is unexplored. */
  lemma PopTop(adj: seq<set<nat>>, explored: seq<bool>, stack: seq<nat>, popped: seq<nat>)
    requires DfsState(adj, explored, stack, popped) && stack != []
    requires explored[Top(stack)]
    requires forall w :: w in adj[Top(stack)] ==> w < |adj| && explored[w]
    ensures DfsState(adj, explored, Pop(stack), popped + [Top(stack)])
  {
    var x := Top(stack);
    var s := Pop(stack);
    var p := popped + [x];
    assert x !in popped;
    assert x !in s;
    assert forall v :: v in stack <==> v in s || v == x;
    forall v | 0 <= v < |adj| ensures v in p <==> explored[v] && v !in s {
      assert v in p <==> v in popped || v == x;
    }
    forall v, w | v in p && w in adj[v] ensures w < |adj| && explored[w] {
      if v != x {
        assert v in popped;
      }
    }
  }

  /** The explored vertices are closed under `adj` between two roots. */
  lemma IdleClosed(adj: seq<set<nat>>, explored: seq<bool>, popped: seq<nat>)
    requires DfsState(adj, explored, [], popped)
    ensures Closed(adj, explored)
  {
    forall v, w | 0 <= v < |adj| && explored[v] && w in adj[v] ensures w < |adj| && explored[w] {
      assert v in popped;
    }
  }

  /** The stack and the pop record together hold at most every vertex once. */
  lemma StateBound(adj: seq<set<nat>>, explored: seq<bool>, stack: seq<nat>, popped: seq<nat>)
    requires DfsState(adj, explored, stack, popped)
    ensures |popped| + |stack| <= |adj|
  {
    var all := popped + stack;
    forall i, j | 0 <= i < j < |all| ensures all[i] != all[j] {
      if i < |popped| && j >= |popped| {
        assert all[i] in popped && all[j] in stack;
      }
    }
    DistinctBelow(all, |adj|);
  }

  /** Every stack entry reaches the top of the stack. */
  lemma StackReachesTop(adj: seq<set<nat>>, explored: seq<bool>, stack: seq<nat>, popped: seq<nat>, i: nat)
    requires DfsState(adj, explored, stack, popped) && i < |stack|
    ensures Reachable(adj, stack[i], Top(stack))
  {
    var p := stack[i..];
    assert IsPath(adj, p);
  }

  /** Leaving the popped vertices along a walk means passing through the stack. */
  lemma {:induction false} LeavesThroughStack(adj: seq<set<nat>>, explored: seq<bool>, stack: seq<nat>, popped: seq<nat>, p: seq<nat>)
    returns (t: nat)
    requires DfsState(adj, explored, stack, popped)
    requires IsPath(adj, p) && p[0] in popped && p[|p| - 1] !in popped
    ensures t in stack && Reachable(adj, p[0], t)
    decreases |p|
  {
    assert |p| > 1;
    assert explored[p[1]];
    if p[1] in popped {
      t := LeavesThroughStack(adj, explored, stack, popped, p[1..]);
      ReachEdge(adj, p[0], p[1]);
      ReachTrans(adj, p[0], p[1], t);
    } else {
      t := p[1];
      ReachEdge(adj, p[0], p[1]);
    }
  }

  /** The vertices reachable from root that were not explored before. */
  ghost function Component(adj: seq<set<nat>>, before: seq<bool>, root: nat): set<nat>
    requires |before| == |adj|
  {
    set v | 0 <= v < |adj| && Reachable(adj, root, v) && !before[v]
  }

  /** Part-way through one search from root: everything on the stack and
      everything popped since the search began (after `popped`) is reached
      from root and was unexplored when the search began, and root is
      still on the stack or already popped. */
  ghost predicate Searched(adj: seq<set<nat>>, root: nat, before: seq<bool>,
                           stack: seq<nat>, popped: seq<nat>, popped': seq<nat>)
  {
    |before| == |adj| && |popped'| >= |popped| && popped'[..|popped|] == popped &&
    (forall v :: v in stack ==> v < |adj| && Reachable(adj, root, v) && !before[v]) &&
    (forall k :: |popped| <= k < |popped'| ==>
      popped'[k] < |adj| && Reachable(adj, root, popped'[k]) && !before[popped'[k]]) &&
    (root in stack || root in popped')
  }

  /** The search starts with root alone on the stack. */
  lemma SearchStart(adj: seq<set<nat>>, root: nat, before: seq<bool>, popped: seq<nat>)
    requires |before| == |adj| && root < |adj| && !before[root]
    ensures Searched(adj, root, before, [root], popped, popped)
  {
    ReachSelf(adj, root);
  }

  /** Pushing a neighbour of the top that was unexplored when the search
      began keeps the search's record. */
  lemma SearchPush(adj: seq<set<nat>>, root: nat, before: seq<bool>,
                   stack: seq<nat>, popped: seq<nat>, popped': seq<nat>, w: nat)
    requires Searched(adj, root, before, stack, popped, popped') && stack != []
    requires Top(stack) < |adj| && w < |adj| && w in adj[Top(stack)] && !before[w]
    ensures Searched(adj, root, before, stack + [w], popped, popped')
  {
    assert Top(stack) in stack;
    ReachEdge(adj, Top(stack), w);
    ReachTrans(adj, root, Top(stack), w);
  }

  /** Popping the top moves it from the stack to the pop record. */
  lemma SearchPop(adj: seq<set<nat>>, root: nat, before: seq<bool>,
                  stack: seq<nat>, popped: seq<nat>, popped': seq<nat>)
    requires Searched(adj, root, before, stack, popped, popped') && stack != []
    requires Distinct(stack)
    ensures Searched(adj, root, before, Pop(stack), popped, popped' + [Top(stack)])
  {
    var p := popped' + [Top(stack)];
    assert Top(stack) in stack;
    assert p[..|popped|] == popped' [..|popped|];
    forall v | v in Pop(stack) ensures v in stack {
    }
    if root !in Pop(stack) && root !in popped' {
      assert root == Top(stack);
    }
  }

  /** What one search from root leaves behind: the vertices it popped are
      exactly those it reaches that were unexplored when it started. */
  lemma ComponentPopped(adj: seq<set<nat>>, before: seq<bool>, explored: seq<bool>,
                        popped: seq<nat>, popped': seq<nat>, root: nat)
    requires |before| == |adj| && root < |adj|
    requires DfsState(adj, before, [], popped)
    requires DfsState(adj, explored, [], popped')
    requires Searched(adj, root, before, [], popped, popped')
    ensures Elements(popped'[|popped|..]) == Component(adj, before, root)
    ensures |popped'| - |popped| == |Component(adj, before, root)|
  {
    var newly := popped'[|popped|..];
    var comp := Component(adj, before, root);
    assert popped' == popped + newly;
    forall v | v in newly ensures v in comp {
      var k :| 0 <= k < |newly| && newly[k] == v;
      assert popped'[|popped| + k] == v;
    }
    IdleClosed(adj, explored, popped');
    assert explored[root];
    forall v | v in comp ensures v in newly {
      ReachMarked(adj, explored, root, v);
      assert v in popped';
      assert v !in popped;
    }
    assert Distinct(newly) by {
      forall i, j | 0 <= i < j < |newly| ensures newly[i] != newly[j] {
        assert newly[i] == popped'[|popped| + i] && newly[j] == popped'[|popped| + j];
      }
    }
    DistinctCard(newly);
    assert Elements(newly) == comp;
  }
}
