/** Pass 2: DFS-Loop over the direct graph (along the outgoing sets),
    starting roots in descending finish-time order; the number of vertices
    popped from one root is the size of one strongly connected component. */
module SecondPass {
  import opened Seqs
  import opened Digraph
  import opened Dfs
  import opened FinishOrder

  /** Every vertex of one of the sets. */
  ghost function Union(comps: seq<set<nat>>): set<nat>
  {
    if comps == [] then {} else Union(comps[..|comps| - 1]) + comps[|comps| - 1]
  }

  ghost predicate Disjoint(comps: seq<set<nat>>)
  {
    forall c, d :: 0 <= c < d < |comps| ==> comps[c] * comps[d] == {}
  }

  lemma {:induction false} UnionMembers(comps: seq<set<nat>>, v: nat)
    ensures v in Union(comps) <==> exists c :: 0 <= c < |comps| && v in comps[c]
    decreases |comps|
  {
    if comps != [] {
      var init := comps[..|comps| - 1];
      UnionMembers(init, v);
      if v in Union(init) {
        var c :| 0 <= c < |init| && v in init[c];
        assert v in comps[c];
      }
      if exists c :: 0 <= c < |comps| && v in comps[c] {
        var c :| 0 <= c < |comps| && v in comps[c];
        if c < |init| {
          assert v in init[c];
        }
      }
    }
  }

  lemma UnionAppend(comps: seq<set<nat>>, comp: set<nat>)
    ensures Union(comps + [comp]) == Union(comps) + comp
  {
    assert (comps + [comp])[..|comps|] == comps;
  }

  lemma SumAppend(sizes: seq<nat>, size: nat)
    ensures Sum(sizes + [size]) == Sum(sizes) + size
  {
    assert (sizes + [size])[..|sizes|] == sizes;
  }

  /** The DFS from one unexplored root, counting the vertices it pops:
      it pops exactly the vertices reachable from the root that were not
      explored before, each once. */
  method CountFrom(g: Graph, root: nat, explored: array<bool>, ghost popped: seq<nat>)
    returns (size: nat, ghost popped': seq<nat>)
    requires g.Valid() && explored.Length == g.Size()
    requires root < g.Size() && !explored[root]
    requires DfsState(g.outgoing, explored[..], [], popped)
    modifies explored
    ensures DfsState(g.outgoing, explored[..], [], popped')
    ensures |popped'| == |popped| + size && popped'[..|popped|] == popped
    ensures Elements(popped'[|popped|..]) == Component(g.outgoing, old(explored[..]), root)
    ensures size == |Component(g.outgoing, old(explored[..]), root)| && size >= 1
    ensures explored[root] && forall v :: 0 <= v < g.Size() && old(explored[v]) ==> explored[v]
  {
    ghost var before := explored[..];
    IdleClosed(g.outgoing, before, popped);
    var stack := [root];
    size, popped' := 0, popped;
    SearchStart(g.outgoing, root, before, popped);
    StartAt(g.outgoing, explored[..], popped, root);
    StateBound(g.outgoing, explored[..], [root], popped);
    while stack != []
      invariant DfsState(g.outgoing, explored[..], stack, popped')
      invariant |popped'| == |popped| + size && popped'[..|popped|] == popped
      invariant Searched(g.outgoing, root, before, stack, popped, popped')
      invariant forall v :: 0 <= v < g.Size() && before[v] ==> explored[v]
      invariant explored[root] || stack == [root]
      invariant |popped'| + |stack| <= g.Size()
      decreases 2 * (g.Size() - |popped'|) - |stack|
    {
      var vertex := stack[|stack| - 1];
      MarkTop(g.outgoing, explored[..], stack, popped');
      explored[vertex] := true;
      if w :| w in g.outgoing[vertex] && !explored[w] {
        PushNeighbour(g.outgoing, explored[..], stack, popped', w);
        SearchPush(g.outgoing, root, before, stack, popped, popped', w);
        stack := stack + [w];
      } else {
        PopTop(g.outgoing, explored[..], stack, popped');
        SearchPop(g.outgoing, root, before, stack, popped, popped');
        stack := stack[..|stack| - 1];
        size := size + 1;
        popped' := popped' + [vertex];
      }
      StateBound(g.outgoing, explored[..], stack, popped');
    }
    ComponentPopped(g.outgoing, before, explored[..], popped, popped', root);
  }

  /** The heart of Kosaraju's algorithm. Let `order` list the vertices by
      pass-1 finish time and let pass 2 take the roots from its end. When
      the root order[k] is reached, every later entry has been explored and
      the explored vertices are closed under the outgoing edges; then the
      vertices the root reaches that are still unexplored are exactly its
      strongly connected component. */
  lemma ComponentIsScc(g: Graph, order: seq<nat>, explored: seq<bool>, k: nat)
    requires g.Valid() && IsPermutation(order, g.Size()) && |explored| == g.Size()
    requires SccOrder(g.incoming, order)
    requires Closed(g.outgoing, explored)
    requires k < |order| && !explored[order[k]]
    requires forall j :: k < j < |order| ==> explored[order[j]]
    ensures Component(g.outgoing, explored, order[k]) == SccOf(g.outgoing, order[k])
  {
    var r := order[k];
    forall v | v in SccOf(g.outgoing, r) ensures v in Component(g.outgoing, explored, r) {
      if explored[v] {
        ReachMarked(g.outgoing, explored, v, r);
        assert false;
      }
    }
    forall v | v in Component(g.outgoing, explored, r) ensures v in SccOf(g.outgoing, r) {
      if !Reachable(g.outgoing, v, r) {
        LaterVertexReaches(g, order, explored, k, v);
        assert false;
      }
    }
  }

  /** The case of ComponentIsScc that uses the order of pass 1: if r reached
      v without v reaching r, some vertex of v's component would have
      finished after r, would be explored already, and so would v. */
  lemma LaterVertexReaches(g: Graph, order: seq<nat>, explored: seq<bool>, k: nat, v: nat)
    requires g.Valid() && IsPermutation(order, g.Size()) && |explored| == g.Size()
    requires SccOrder(g.incoming, order)
    requires Closed(g.outgoing, explored)
    requires k < |order| && forall j :: k < j < |order| ==> explored[order[j]]
    requires v < g.Size() && Reachable(g.outgoing, order[k], v) && !Reachable(g.outgoing, v, order[k])
    ensures explored[v]
  {
    var r := order[k];
    ReachReversed(g, r, v);
    ReachReversed(g, v, r);
    DistinctBelow(order, g.Size());
    assert v in order;
    var z :| SameScc(g.incoming, v, z) && PoppedBefore(order, r, z);
    var i, j :| 0 <= i < j < |order| && order[i] == r && order[j] == z;
    assert i == k;
    SameSccReversed(g, v, z);
    ReachMarked(g.outgoing, explored, z, v);
  }
}

/** The pass-2 DFS-Loop and what it proves about the component sizes. */
module CountSccs {
  import opened Seqs
  import opened Digraph
  import opened Dfs
  import opened FinishOrder
  import opened SecondPass

  /** The bookkeeping of pass 2 so far: one size, root and component per
      root taken, each size that of its component, each root in its own
      component, the components disjoint and holding exactly the vertices
      popped so far. */
  ghost predicate Tally(g: Graph, sizes: seq<nat>, roots: seq<nat>, comps: seq<set<nat>>, popped: seq<nat>)
  {
    |sizes| == |roots| == |comps| &&
    (forall c :: 0 <= c < |comps| ==> sizes[c] == |comps[c]| && sizes[c] >= 1) &&
    (forall c :: 0 <= c < |comps| ==> roots[c] < g.Size() && roots[c] in comps[c]) &&
    Disjoint(comps) && Elements(popped) == Union(comps) && |popped| == Sum(sizes)
  }

  /** Given the finishing order of pass 1, each component is the strongly
      connected component of its root. */
  ghost predicate SccsFound(g: Graph, order: seq<nat>, roots: seq<nat>, comps: seq<set<nat>>)
    requires |roots| == |comps|
  {
    SccOrder(g.incoming, order) ==>
      forall c :: 0 <= c < |comps| ==> comps[c] == SccOf(g.outgoing, roots[c])
  }

  /** One size per root, in the order the roots were taken: each size is
      that of its component (at least 1), the components are disjoint and
      cover every vertex, the sizes add up to the number of vertices, and,
      when `order` lists the vertices in the finishing order of pass 1,
      every component is the strongly connected component of its root. */
  method CountComponents(g: Graph, order: array<nat>, explored: array<bool>)
    returns (sizes: seq<nat>, ghost roots: seq<nat>, ghost comps: seq<set<nat>>)
    requires g.Valid() && explored.Length == g.Size()
    requires IsPermutation(order[..], g.Size())
    requires forall v :: 0 <= v < g.Size() ==> !explored[v]
    modifies explored
    ensures |sizes| == |roots| == |comps|
    ensures forall c :: 0 <= c < |comps| ==> sizes[c] == |comps[c]| && sizes[c] >= 1
    ensures forall c :: 0 <= c < |comps| ==> roots[c] < g.Size() && roots[c] in comps[c]
    ensures Disjoint(comps) && Union(comps) == Range(g.Size())
    ensures Sum(sizes) == g.Size()
    ensures SccOrder(g.incoming, order[..]) ==>
      forall c :: 0 <= c < |comps| ==> comps[c] == SccOf(g.outgoing, roots[c])
    ensures forall v :: 0 <= v < g.Size() ==> explored[v]
  {
    sizes, roots, comps := [], [], [];
    ghost var popped: seq<nat> := [];
    ghost var ord := order[..];
    var i := order.Length;
    while i > 0
      invariant 0 <= i <= order.Length
      invariant DfsState(g.outgoing, explored[..], [], popped)
      invariant order[..] == ord
      invariant forall j :: i <= j < |ord| ==> explored[ord[j]]
      invariant Tally(g, sizes, roots, comps, popped)
      invariant SccsFound(g, ord, roots, comps)
    {
      i := i - 1;
      sizes, roots, comps, popped := TakeRoot(g, order, i, explored, sizes, roots, comps, popped);
    }
    AllExplored(g, ord, explored[..], popped);
    CoverAll(g, popped, comps);
  }

  /** One iteration of the pass-2 DFS-Loop: the vertex at position i of
      the list is a new root unless it is explored already. */
  method TakeRoot(g: Graph, order: array<nat>, i: nat, explored: array<bool>,
                  sizes: seq<nat>, ghost roots: seq<nat>, ghost comps: seq<set<nat>>, ghost popped: seq<nat>)
    returns (sizes': seq<nat>, ghost roots': seq<nat>, ghost comps': seq<set<nat>>, ghost popped': seq<nat>)
    requires g.Valid() && explored.Length == g.Size()
    requires IsPermutation(order[..], g.Size()) && i < order.Length
    requires DfsState(g.outgoing, explored[..], [], popped)
    requires forall j :: i < j < order.Length ==> explored[order[j]]
    requires Tally(g, sizes, roots, comps, popped) && SccsFound(g, order[..], roots, comps)
    modifies explored
    ensures DfsState(g.outgoing, explored[..], [], popped')
    ensures forall j :: i <= j < order.Length ==> explored[order[j]]
    ensures Tally(g, sizes', roots', comps', popped') && SccsFound(g, order[..], roots', comps')
    ensures |popped| <= |popped'| && popped'[..|popped|] == popped
    ensures old(explored[order[i]]) ==>
      sizes' == sizes && roots' == roots && comps' == comps && popped' == popped
    ensures !old(explored[order[i]]) ==>
      sizes' == sizes + [|Component(g.outgoing, old(explored[..]), order[i])|] &&
      roots' == roots + [order[i]] &&
      comps' == comps + [Component(g.outgoing, old(explored[..]), order[i])]
  {
    var root := order[i];
    ghost var ord := order[..];
    sizes', roots', comps', popped' := sizes, roots, comps, popped;
    ghost var before := explored[..];
    if !explored[root] {
      var size;
      size, popped' := CountFrom(g, root, explored, popped);
      assert order[..] == ord && order[i] == root;
      ghost var comp := Component(g.outgoing, before, root);
      assert size == |comp|;
      assert |popped| <= |popped'| && popped'[..|popped|] == popped;
      RootStep(g, ord, i, before, explored[..], popped, popped', sizes, roots, comps, size);
      sizes', roots', comps' := sizes + [size], roots + [root], comps + [comp];
    }
  }

  /** What counting the new root order[i] contributes, from the state
      before the count and the one after it. */
  lemma RootStep(g: Graph, order: seq<nat>, i: nat, before: seq<bool>, after: seq<bool>,
                 popped: seq<nat>, popped': seq<nat>,
                 sizes: seq<nat>, roots: seq<nat>, comps: seq<set<nat>>, size: nat)
    requires g.Valid() && IsPermutation(order, g.Size()) && i < |order|
    requires |before| == g.Size() && !before[order[i]]
    requires DfsState(g.outgoing, before, [], popped)
    requires forall j :: i < j < |order| ==> before[order[j]]
    requires Tally(g, sizes, roots, comps, popped) && SccsFound(g, order, roots, comps)
    requires |popped'| == |popped| + size && popped'[..|popped|] == popped
    requires Elements(popped'[|popped|..]) == Component(g.outgoing, before, order[i])
    requires size == |Component(g.outgoing, before, order[i])| && size >= 1
    requires |after| == g.Size() && after[order[i]]
    requires forall v :: 0 <= v < g.Size() && before[v] ==> after[v]
    ensures forall j :: i <= j < |order| ==> after[order[j]]
    ensures Tally(g, sizes + [size], roots + [order[i]], comps + [Component(g.outgoing, before, order[i])], popped')
    ensures SccsFound(g, order, roots + [order[i]], comps + [Component(g.outgoing, before, order[i])])
  {
    TallyStep(g, before, popped, popped', sizes, roots, comps, size, order[i]);
    SccStep(g, order, before, popped, i, roots, comps);
    ExploredFrom(order, before, after, i);
  }

  /** After a root is counted, it and every later root are explored. */
  lemma ExploredFrom(order: seq<nat>, before: seq<bool>, after: seq<bool>, i: nat)
    requires |before| == |after| && Below(order, |before|) && i < |order| && after[order[i]]
    requires forall v :: 0 <= v < |before| && before[v] ==> after[v]
    requires forall j :: i < j < |order| ==> before[order[j]]
    ensures forall j :: i <= j < |order| ==> after[order[j]]
  {
  }

  /** Counting a new root extends the bookkeeping by its component. */
  lemma TallyStep(g: Graph, before: seq<bool>, popped: seq<nat>, popped': seq<nat>,
                  sizes: seq<nat>, roots: seq<nat>, comps: seq<set<nat>>, size: nat, root: nat)
    requires g.Valid() && |before| == g.Size() && root < g.Size() && !before[root]
    requires DfsState(g.outgoing, before, [], popped)
    requires Tally(g, sizes, roots, comps, popped)
    requires |popped'| == |popped| + size && popped'[..|popped|] == popped
    requires Elements(popped'[|popped|..]) == Component(g.outgoing, before, root)
    requires size == |Component(g.outgoing, before, root)| && size >= 1
    ensures Tally(g, sizes + [size], roots + [root], comps + [Component(g.outgoing, before, root)], popped')
  {
    var comp := Component(g.outgoing, before, root);
    ReachSelf(g.outgoing, root);
    assert root in comp;
    NewComponent(g, before, popped, popped', comps, comp, root);
    UnionAppend(comps, comp);
    SumAppend(sizes, size);
    var sizes', roots', comps' := sizes + [size], roots + [root], comps + [comp];
    forall c | 0 <= c < |comps'|
      ensures sizes'[c] == |comps'[c]| && sizes'[c] >= 1
      ensures roots'[c] < g.Size() && roots'[c] in comps'[c]
    {
      if c < |comps| {
        assert sizes'[c] == sizes[c] && roots'[c] == roots[c] && comps'[c] == comps[c];
      }
    }
  }

  /** Under the finishing order of pass 1, the new component is the
      strongly connected component of its root. */
  lemma SccStep(g: Graph, order: seq<nat>, before: seq<bool>, popped: seq<nat>, i: nat,
                roots: seq<nat>, comps: seq<set<nat>>)
    requires g.Valid() && IsPermutation(order, g.Size()) && |before| == g.Size()
    requires DfsState(g.outgoing, before, [], popped)
    requires i < |order| && !before[order[i]]
    requires forall j :: i < j < |order| ==> before[order[j]]
    requires |roots| == |comps| && SccsFound(g, order, roots, comps)
    ensures SccsFound(g, order, roots + [order[i]], comps + [Component(g.outgoing, before, order[i])])
  {
    if SccOrder(g.incoming, order) {
      IdleClosed(g.outgoing, before, popped);
      ComponentIsScc(g, order, before, i);
    }
  }

  /** The component counted from a new root is disjoint from those already
      counted, and the pop record grows by exactly its vertices. */
  lemma NewComponent(g: Graph, before: seq<bool>, popped: seq<nat>, popped': seq<nat>,
                     comps: seq<set<nat>>, comp: set<nat>, root: nat)
    requires g.Valid() && |before| == g.Size() && root < g.Size()
    requires DfsState(g.outgoing, before, [], popped)
    requires Elements(popped) == Union(comps) && Disjoint(comps)
    requires |popped'| >= |popped| && popped'[..|popped|] == popped
    requires comp == Component(g.outgoing, before, root)
    requires Elements(popped'[|popped|..]) == comp
    ensures Disjoint(comps + [comp])
    ensures Elements(popped') == Union(comps) + comp
  {
    assert popped' == popped + popped'[|popped|..];
    assert Elements(popped') == Elements(popped) + comp;
    forall c | 0 <= c < |comps| ensures comps[c] * comp == {} {
      forall v | v in comps[c] ensures v !in comp {
        UnionMembers(comps, v);
        assert v in popped;
      }
    }
  }

  /** Once every root has been taken, every vertex is explored and popped. */
  lemma AllExplored(g: Graph, order: seq<nat>, explored: seq<bool>, popped: seq<nat>)
    requires g.Valid() && IsPermutation(order, g.Size())
    requires DfsState(g.outgoing, explored, [], popped)
    requires forall j :: 0 <= j < |order| ==> explored[order[j]]
    ensures forall v :: 0 <= v < g.Size() ==> explored[v] && v in popped
  {
    DistinctBelow(order, g.Size());
    forall v | 0 <= v < g.Size() ensures explored[v] && v in popped {
      assert v in order;
    }
  }

  lemma CoverAll(g: Graph, popped: seq<nat>, comps: seq<set<nat>>)
    requires Distinct(popped) && Below(popped, g.Size())
    requires forall v :: 0 <= v < g.Size() ==> v in popped
    requires Elements(popped) == Union(comps)
    ensures Union(comps) == Range(g.Size()) && |popped| == g.Size()
  {
    DistinctBelow(popped, g.Size());
    RangeMembers(g.Size());
  }
}
