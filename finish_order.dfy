/** What the order in which pass 1 finishes vertices says about the
    strongly connected components: the fact that makes pass 2 count
    exactly one component per root. */
module FinishOrder {
  import opened Seqs
  import opened Digraph
  import opened Dfs

  /** z was popped after y. */
  ghost predicate PoppedBefore(popped: seq<nat>, y: nat, z: nat)
  {
    exists i, j :: 0 <= i < j < |popped| && popped[i] == y && popped[j] == z
  }

  /** The finishing-order property, once the stack is empty: if u reaches
      y but y does not reach u, some vertex of u's component finishes
      after y. */
  ghost predicate SccOrder(adj: seq<set<nat>>, popped: seq<nat>)
  {
    forall u: nat, y: nat :: u in popped && Reachable(adj, u, y) && !Reachable(adj, y, u) ==>
      exists z :: SameScc(adj, u, z) && PoppedBefore(popped, y, z)
  }

  /** The same property while a DFS is under way: the vertex of u's
      component that will finish after y may still be on the stack. */
  ghost predicate Pending(adj: seq<set<nat>>, stack: seq<nat>, popped: seq<nat>)
  {
    forall u: nat, y: nat :: u in popped && Reachable(adj, u, y) && !Reachable(adj, y, u) ==>
      (exists z :: z in stack && SameScc(adj, u, z)) ||
      (exists z :: SameScc(adj, u, z) && PoppedBefore(popped, y, z))
  }

  lemma PendingIdle(adj: seq<set<nat>>, popped: seq<nat>)
    requires Pending(adj, [], popped)
    ensures SccOrder(adj, popped)
  {
  }

  lemma PendingEmpty(adj: seq<set<nat>>)
    ensures Pending(adj, [], [])
  {
  }

  lemma PendingGrow(adj: seq<set<nat>>, stack: seq<nat>, popped: seq<nat>, w: nat)
    requires Pending(adj, stack, popped)
    ensures Pending(adj, stack + [w], popped)
  {
    forall u: nat, y: nat | u in popped && Reachable(adj, u, y) && !Reachable(adj, y, u)
      ensures (exists z :: z in stack + [w] && SameScc(adj, u, z)) ||
        (exists z :: SameScc(adj, u, z) && PoppedBefore(popped, y, z))
    {
      if exists z :: z in stack && SameScc(adj, u, z) {
        var z :| z in stack && SameScc(adj, u, z);
        assert z in stack + [w];
      }
    }
  }

  /** When the top x is popped and y is reachable from x but does not
      reach x: either y finished earlier, or some vertex of x's component
      is still on the stack. */
  lemma PoppedTopCase(adj: seq<set<nat>>, explored: seq<bool>, stack: seq<nat>, popped: seq<nat>, y: nat)
    requires DfsState(adj, explored, stack, popped) && stack != []
    requires DfsState(adj, explored, Pop(stack), popped + [Top(stack)])
    requires Reachable(adj, Top(stack), y) && !Reachable(adj, y, Top(stack))
    ensures (exists z :: z in Pop(stack) && SameScc(adj, Top(stack), z)) ||
      PoppedBefore(popped + [Top(stack)], y, Top(stack))
  {
    var x := Top(stack);
    var p' := popped + [x];
    if y in popped {
      var i :| 0 <= i < |popped| && popped[i] == y;
      assert p'[i] == y && p'[|popped|] == x;
    } else {
      assert y != x by {
        if y == x {
          ReachSelf(adj, x);
        }
      }
      assert y !in p';
      var path :| IsPath(adj, path) && path[0] == x && path[|path| - 1] == y;
      assert x in p';
      var t := LeavesThroughStack(adj, explored, Pop(stack), p', path);
      var k :| 0 <= k < |Pop(stack)| && Pop(stack)[k] == t;
      StackReachesTop(adj, explored, stack, popped, k);
      assert SameScc(adj, x, t);
    }
  }

  /** Popping the top vertex of the stack keeps the property. */
  lemma PendingPop(adj: seq<set<nat>>, explored: seq<bool>, stack: seq<nat>, popped: seq<nat>)
    requires DfsState(adj, explored, stack, popped) && stack != []
    requires DfsState(adj, explored, Pop(stack), popped + [Top(stack)])
    requires Pending(adj, stack, popped)
    ensures Pending(adj, Pop(stack), popped + [Top(stack)])
  {
    var x := Top(stack);
    var s := Pop(stack);
    var p' := popped + [x];
    assert x < |adj|;
    ReachSelf(adj, x);
    forall u: nat, y: nat | u in p' && Reachable(adj, u, y) && !Reachable(adj, y, u)
      ensures (exists z :: z in s && SameScc(adj, u, z)) ||
        (exists z :: SameScc(adj, u, z) && PoppedBefore(p', y, z))
    {
      if u == x {
        PoppedTopCase(adj, explored, stack, popped, y);
      } else {
        assert u in popped;
        if exists z :: z in stack && SameScc(adj, u, z) {
          var z :| z in stack && SameScc(adj, u, z);
          if z == x {
            ReachTrans(adj, x, u, y);
            if Reachable(adj, y, x) {
              ReachTrans(adj, y, x, u);
            }
            PoppedTopCase(adj, explored, stack, popped, y);
            if exists t :: t in s && SameScc(adj, x, t) {
              var t :| t in s && SameScc(adj, x, t);
              SameSccTrans(adj, u, x, t);
            }
          } else {
            assert z in s;
          }
        } else {
          var z :| SameScc(adj, u, z) && PoppedBefore(popped, y, z);
          var i, j :| 0 <= i < j < |popped| && popped[i] == y && popped[j] == z;
          assert p'[i] == y && p'[j] == z;
        }
      }
    }
  }
}
