/** The built graph with every vertex replaced by its position in the
    ascending-ID list (its dense index), and reachability over it. */
module Digraph {
  import opened Seqs
  import Builder

  /** outgoing[v] and incoming[v] are the neighbour sets of vertex v. */
  datatype Graph = Graph(outgoing: seq<set<nat>>, incoming: seq<set<nat>>)
  {
    function Size(): nat
    {
      |outgoing|
    }

    /** Both sides have one set per vertex, every neighbour is a vertex,
        and an edge u -> v is stored on both endpoints. */
    ghost predicate Valid()
    {
      |incoming| == |outgoing| &&
      WellFormed(outgoing) && WellFormed(incoming) &&
      forall u, v :: 0 <= u < |outgoing| && 0 <= v < |outgoing| ==>
        (v in outgoing[u] <==> u in incoming[v])
    }
  }

  ghost predicate WellFormed(adj: seq<set<nat>>)
  {
    forall v, w :: 0 <= v < |adj| && w in adj[v] ==> w < |adj|
  }

  /** p is a walk along adj: consecutive vertices are joined by an edge. */
  ghost predicate IsPath(adj: seq<set<nat>>, p: seq<nat>)
  {
    |p| > 0 &&
    (forall i :: 0 <= i < |p| ==> p[i] < |adj|) &&
    (forall i, j :: 0 <= i < |p| - 1 && j == i + 1 ==> p[j] in adj[p[i]])
  }

  ghost predicate Reachable(adj: seq<set<nat>>, u: nat, v: nat)
  {
    exists p :: IsPath(adj, p) && p[0] == u && p[|p| - 1] == v
  }

  /** u and v lie in one strongly connected component. */
  ghost predicate SameScc(adj: seq<set<nat>>, u: nat, v: nat)
  {
    Reachable(adj, u, v) && Reachable(adj, v, u)
  }

  /** The strongly connected component of r. */
  ghost function SccOf(adj: seq<set<nat>>, r: nat): set<nat>
  {
    set v | 0 <= v < |adj| && SameScc(adj, r, v)
  }

  lemma ReachSelf(adj: seq<set<nat>>, u: nat)
    requires u < |adj|
    ensures Reachable(adj, u, u)
  {
    assert IsPath(adj, [u]);
  }

  lemma ReachEdge(adj: seq<set<nat>>, u: nat, w: nat)
    requires u < |adj| && w < |adj| && w in adj[u]
    ensures Reachable(adj, u, w)
  {
    assert IsPath(adj, [u, w]);
  }

  lemma ReachTrans(adj: seq<set<nat>>, a: nat, b: nat, c: nat)
    requires Reachable(adj, a, b) && Reachable(adj, b, c)
    ensures Reachable(adj, a, c)
  {
    var p :| IsPath(adj, p) && p[0] == a && p[|p| - 1] == b;
    var q :| IsPath(adj, q) && q[0] == b && q[|q| - 1] == c;
    var r := p + q[1..];
    assert IsPath(adj, r) by {
      forall i | 0 <= i < |r| - 1 ensures r[i + 1] in adj[r[i]] {
        if i < |p| - 1 {
          assert r[i] == p[i] && r[i + 1] == p[i + 1];
        } else {
          assert r[i] == q[i - |p| + 1] && r[i + 1] == q[i - |p| + 2];
        }
      }
    }
  }

  lemma SameSccTrans(adj: seq<set<nat>>, a: nat, b: nat, c: nat)
    requires SameScc(adj, a, b) && SameScc(adj, b, c)
    ensures SameScc(adj, a, c)
  {
    ReachTrans(adj, a, b, c);
    ReachTrans(adj, c, b, a);
  }

  /** Walking the incoming sets is walking the outgoing sets backwards. */
  lemma ReachReversed(g: Graph, a: nat, b: nat)
    requires g.Valid()
    ensures Reachable(g.outgoing, a, b) <==> Reachable(g.incoming, b, a)
  {
    if Reachable(g.outgoing, a, b) {
      var p :| IsPath(g.outgoing, p) && p[0] == a && p[|p| - 1] == b;
      var q := Reverse(p);
      forall i | 0 <= i < |q| - 1 ensures q[i + 1] in g.incoming[q[i]] {
        assert q[i] == p[|p| - 1 - i] && q[i + 1] == p[|p| - 2 - i];
        assert p[|p| - 1 - i] in g.outgoing[p[|p| - 2 - i]];
      }
      assert IsPath(g.incoming, q);
    }
    if Reachable(g.incoming, b, a) {
      var p :| IsPath(g.incoming, p) && p[0] == b && p[|p| - 1] == a;
      var q := Reverse(p);
      forall i | 0 <= i < |q| - 1 ensures q[i + 1] in g.outgoing[q[i]] {
        assert q[i] == p[|p| - 1 - i] && q[i + 1] == p[|p| - 2 - i];
        assert p[|p| - 1 - i] in g.incoming[p[|p| - 2 - i]];
      }
      assert IsPath(g.outgoing, q);
    }
  }

  lemma SameSccReversed(g: Graph, a: nat, b: nat)
    requires g.Valid()
    ensures SameScc(g.outgoing, a, b) <==> SameScc(g.incoming, a, b)
  {
    ReachReversed(g, a, b);
    ReachReversed(g, b, a);
  }

  function Reverse(p: seq<nat>): (q: seq<nat>)
    ensures |q| == |p| && forall i :: 0 <= i < |p| ==> q[i] == p[|p| - 1 - i]
  {
    seq(|p|, i requires 0 <= i < |p| => p[|p| - 1 - i])
  }

  /** Every neighbour of a marked vertex is a marked vertex. */
  ghost predicate Closed(adj: seq<set<nat>>, marked: seq<bool>)
    requires |marked| == |adj|
  {
    forall v, w :: 0 <= v < |adj| && marked[v] && w in adj[v] ==> w < |adj| && marked[w]
  }

  /** A vertex set that holds every neighbour of its members holds every
      vertex reachable from one of its members. */
  lemma {:induction false} ClosedUnderReach(adj: seq<set<nat>>, marked: seq<bool>, p: seq<nat>)
    requires |marked| == |adj|
    requires Closed(adj, marked)
    requires IsPath(adj, p) && marked[p[0]]
    ensures marked[p[|p| - 1]]
    decreases |p|
  {
    if |p| > 1 {
      assert marked[p[1]];
      ClosedUnderReach(adj, marked, p[1..]);
    }
  }

  lemma ReachMarked(adj: seq<set<nat>>, marked: seq<bool>, u: nat, v: nat)
    requires |marked| == |adj|
    requires Closed(adj, marked)
    requires Reachable(adj, u, v) && u < |adj| && marked[u]
    ensures v < |adj| && marked[v]
  {
    var p :| IsPath(adj, p) && p[0] == u && p[|p| - 1] == v;
    ClosedUnderReach(adj, marked, p);
  }

  /** The dense index of every listed vertex ID. */
  function IndexOf(vertices: seq<Builder.Vertex>): (index: map<int, nat>)
    requires forall i, j :: 0 <= i < j < |vertices| ==> vertices[i].id < vertices[j].id
    ensures forall i :: 0 <= i < |vertices| ==> vertices[i].id in index && index[vertices[i].id] == i
    ensures forall id :: id in index ==> index[id] < |vertices| && vertices[index[id]].id == id
  {
    map i | 0 <= i < |vertices| :: vertices[i].id := i
  }

  /** The builder's vertices with each neighbour ID replaced by its index. */
  function FromVertices(vertices: seq<Builder.Vertex>): (g: Graph)
    requires Builder.WellLinked(vertices)
    ensures g.Valid() && g.Size() == |vertices|
    ensures forall i, j :: 0 <= i < |vertices| && 0 <= j < |vertices| ==>
      (j in g.outgoing[i] <==> vertices[j].id in vertices[i].outgoing) &&
      (j in g.incoming[i] <==> vertices[j].id in vertices[i].incoming)
  {
    var index := IndexOf(vertices);
    var g := Graph(
      seq(|vertices|, i requires 0 <= i < |vertices| =>
        set w | w in vertices[i].outgoing && w in index :: index[w]),
      seq(|vertices|, i requires 0 <= i < |vertices| =>
        set w | w in vertices[i].incoming && w in index :: index[w]));
    FromVerticesFacts(vertices, index, g);
    g
  }

  lemma FromVerticesFacts(vertices: seq<Builder.Vertex>, index: map<int, nat>, g: Graph)
    requires Builder.WellLinked(vertices)
    requires forall i :: 0 <= i < |vertices| ==> vertices[i].id in index && index[vertices[i].id] == i
    requires forall id :: id in index ==> index[id] < |vertices| && vertices[index[id]].id == id
    requires |g.outgoing| == |g.incoming| == |vertices|
    requires forall i :: 0 <= i < |vertices| ==>
      g.outgoing[i] == (set w | w in vertices[i].outgoing && w in index :: index[w]) &&
      g.incoming[i] == (set w | w in vertices[i].incoming && w in index :: index[w])
    ensures g.Valid() && g.Size() == |vertices|
    ensures forall i, j :: 0 <= i < |vertices| && 0 <= j < |vertices| ==>
      (j in g.outgoing[i] <==> vertices[j].id in vertices[i].outgoing) &&
      (j in g.incoming[i] <==> vertices[j].id in vertices[i].incoming)
  {
    forall i, j | 0 <= i < |vertices| && 0 <= j < |vertices|
      ensures (j in g.outgoing[i] <==> vertices[j].id in vertices[i].outgoing)
      ensures (j in g.incoming[i] <==> vertices[j].id in vertices[i].incoming)
    {
      if vertices[j].id in vertices[i].outgoing {
        assert index[vertices[j].id] == j;
      }
      if vertices[j].id in vertices[i].incoming {
        assert index[vertices[j].id] == j;
      }
    }
  }
}
