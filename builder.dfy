/** The graph builder: folds the edge list into one Vertex per vertex ID,
    recording each edge on both of its endpoints, and lists the vertices
    by ascending ID. */
module Builder {

  /** An edge as (tail, head): the tail has an outgoing edge to the head. */
  type Edge = (int, int)

  /** A vertex and its neighbour sets, both holding vertex IDs. The
      explored flag and the finish time are kept by the engine, in arrays
      indexed by the vertex's position in the ascending-ID list. */
  datatype Vertex = Vertex(id: int, outgoing: set<int>, incoming: set<int>)

  /** Every ID that occurs as a tail or a head of some edge. */
  function Endpoints(edges: seq<Edge>): set<int>
  {
    (set e | e in edges :: e.0) + (set e | e in edges :: e.1)
  }

  /** The heads of the edges leaving `id`. */
  function Heads(edges: seq<Edge>, id: int): set<int>
  {
    set e | e in edges && e.0 == id :: e.1
  }

  /** The tails of the edges entering `id`. */
  function Tails(edges: seq<Edge>, id: int): set<int>
  {
    set e | e in edges && e.1 == id :: e.0
  }

  /** The vertex table the edge loop builds, stated directly: one vertex
      per endpoint, with the edges that leave and enter it. */
  function VertexTable(edges: seq<Edge>): (table: map<int, Vertex>)
    ensures forall id :: id in table <==> id in Endpoints(edges)
    ensures forall id :: id in table ==> table[id].id == id
    ensures forall u, v :: u in table && v in table[u].outgoing ==> v in table
    ensures forall u, v :: u in table && v in table[u].incoming ==> v in table
    ensures forall u, v :: u in table && v in table ==>
      (v in table[u].outgoing <==> (u, v) in edges) &&
      (u in table[v].incoming <==> (u, v) in edges)
  {
    map id | id in Endpoints(edges) :: Vertex(id, Heads(edges, id), Tails(edges, id))
  }

  lemma AppendEdge(edges: seq<Edge>, e: Edge, id: int)
    ensures Endpoints(edges + [e]) == Endpoints(edges) + {e.0, e.1}
    ensures Heads(edges + [e], id) == Heads(edges, id) + (if e.0 == id then {e.1} else {})
    ensures Tails(edges + [e], id) == Tails(edges, id) + (if e.1 == id then {e.0} else {})
  {
    assert forall x :: x in edges + [e] <==> x in edges || x == e;
  }

  /** The vertex stored under `id`, or the fresh one `Vertex(id)` creates. */
  function Fetch(table: map<int, Vertex>, id: int): Vertex
  {
    if id in table then table[id] else Vertex(id, {}, {})
  }

  /** One pass of the edge loop turns the table of a prefix into the table
      of the prefix extended by one edge. */
  lemma {:induction false} EdgeStep(done: seq<Edge>, e: Edge, before: map<int, Vertex>, after: map<int, Vertex>)
    requires before.Keys == Endpoints(done)
    requires forall id :: id in before ==> before[id] == Vertex(id, Heads(done, id), Tails(done, id))
    requires after.Keys == before.Keys + {e.0, e.1}
    requires forall id :: id in after ==> after[id] == Vertex(id,
      Fetch(before, id).outgoing + (if id == e.0 then {e.1} else {}),
      Fetch(before, id).incoming + (if id == e.1 then {e.0} else {}))
    ensures after.Keys == Endpoints(done + [e])
    ensures forall id :: id in after ==> after[id] == Vertex(id, Heads(done + [e], id), Tails(done + [e], id))
  {
    forall id | id in after
      ensures after[id] == Vertex(id, Heads(done + [e], id), Tails(done + [e], id))
    {
      AppendEdge(done, e, id);
      if id !in before {
        assert id !in Endpoints(done);
        assert forall x :: x in done ==> x.0 != id && x.1 != id;
        assert Heads(done, id) == {} && Tails(done, id) == {};
      }
    }
    AppendEdge(done, e, e.0);
  }

  /** The edge loop of initialize_input: for each (tail, head) it fetches
      the vertex of each endpoint, creating and storing it when the ID is
      new, then adds the head to the tail's outgoing set and the tail to
      the head's incoming set. */
  method BuildVertexTable(edges: seq<Edge>) returns (table: map<int, Vertex>)
    ensures table == VertexTable(edges)
  {
    table := map[];
    for i := 0 to |edges|
      invariant table.Keys == Endpoints(edges[..i])
      invariant forall id :: id in table ==>
        table[id] == Vertex(id, Heads(edges[..i], id), Tails(edges[..i], id))
    {
      ghost var before := table;
      var (tail, head) := edges[i];
      var startVertex := if tail in table then table[tail] else Vertex(tail, {}, {});
      table := table[tail := startVertex];
      var endVertex := if head in table then table[head] else Vertex(head, {}, {});
      table := table[head := endVertex];
      table := table[tail := table[tail].(outgoing := table[tail].outgoing + {head})];
      table := table[head := table[head].(incoming := table[head].incoming + {tail})];
      forall id | id in table
        ensures table[id] == Vertex(id,
          Fetch(before, id).outgoing + (if id == tail then {head} else {}),
          Fetch(before, id).incoming + (if id == head then {tail} else {}))
      {
        if id != tail && id != head {
          assert table[id] == before[id];
        }
      }
      EdgeStep(edges[..i], edges[i], before, table);
      assert edges[..i + 1] == edges[..i] + [edges[i]];
    }
    assert edges[..|edges|] == edges;
  }

  /** Strictly ascending. */
  predicate Ascending(s: seq<int>)
  {
    forall i, j :: 0 <= i < j < |s| ==> s[i] < s[j]
  }

  lemma {:induction false} SmallestExists(ids: set<int>)
    requires ids != {}
    ensures exists m :: m in ids && forall x :: x in ids ==> m <= x
    decreases |ids|
  {
    if forall x :: x !in ids {
      assert false;
    }
    var y :| y in ids;
    if ids == {y} {
      assert forall x :: x in ids ==> y <= x;
    } else {
      var rest := ids - {y};
      assert |rest| < |ids|;
      SmallestExists(rest);
      var m :| m in rest && forall x :: x in rest ==> m <= x;
      var least := if y < m then y else m;
      forall x | x in ids ensures least <= x {
        if x != y {
          assert x in rest;
        }
      }
      assert least in ids;
    }
  }

  function Smallest(ids: set<int>): (m: int)
    requires ids != {}
    ensures m in ids && forall x :: x in ids ==> m <= x
  {
    SmallestExists(ids);
    var m :| m in ids && forall x :: x in ids ==> m <= x;
    m
  }

  /** The IDs in ascending order. */
  function SortedIds(ids: set<int>): (r: seq<int>)
    ensures Ascending(r)
    ensures forall x :: x in r <==> x in ids
    ensures |r| == |ids|
    decreases ids
  {
    if ids == {} then []
    else
      var m := Smallest(ids);
      [m] + SortedIds(ids - {m})
  }

  /** The final `sorted(..., key=vertex_id)` of initialize_input. */
  function AscendingById(table: map<int, Vertex>): (vertices: seq<Vertex>)
    requires forall id :: id in table ==> table[id].id == id
    ensures |vertices| == |table|
    ensures forall i, j :: 0 <= i < j < |vertices| ==> vertices[i].id < vertices[j].id
    ensures forall i :: 0 <= i < |vertices| ==>
      vertices[i].id in table && vertices[i] == table[vertices[i].id]
    ensures forall id :: id in table ==> exists i :: 0 <= i < |vertices| && vertices[i].id == id
  {
    var ids := SortedIds(table.Keys);
    assert forall i :: 0 <= i < |ids| ==> ids[i] in ids;
    var vertices := Lookup(table, ids);
    ListedById(table, ids, vertices);
    vertices
  }

  /** The stored vertex of each listed ID. */
  function Lookup(table: map<int, Vertex>, ids: seq<int>): (vertices: seq<Vertex>)
    requires forall i :: 0 <= i < |ids| ==> ids[i] in table
    ensures |vertices| == |ids|
    ensures forall i :: 0 <= i < |ids| ==> ids[i] in table && vertices[i] == table[ids[i]]
  {
    seq(|ids|, i requires 0 <= i < |ids| => table[ids[i]])
  }

  lemma ListedById(table: map<int, Vertex>, ids: seq<int>, vertices: seq<Vertex>)
    requires forall id :: id in table ==> table[id].id == id
    requires Ascending(ids) && forall x :: x in ids <==> x in table
    requires |vertices| == |ids|
    requires forall i :: 0 <= i < |ids| ==> ids[i] in table && vertices[i] == table[ids[i]]
    ensures forall i, j :: 0 <= i < j < |vertices| ==> vertices[i].id < vertices[j].id
    ensures forall i :: 0 <= i < |vertices| ==>
      vertices[i].id in table && vertices[i] == table[vertices[i].id]
    ensures forall id :: id in table ==> exists i :: 0 <= i < |vertices| && vertices[i].id == id
  {
    forall id | id in table ensures exists i :: 0 <= i < |vertices| && vertices[i].id == id {
      assert id in ids;
      var i :| 0 <= i < |ids| && ids[i] == id;
      assert vertices[i].id == id;
    }
  }

  /** What the engine relies on in the builder's output: IDs strictly
      ascending, every neighbour is a listed vertex, and the outgoing and
      incoming sets mirror each other. */
  ghost predicate WellLinked(vertices: seq<Vertex>)
  {
    (forall i, j :: 0 <= i < j < |vertices| ==> vertices[i].id < vertices[j].id) &&
    (forall i, w :: 0 <= i < |vertices| && w in vertices[i].outgoing ==>
      exists j :: 0 <= j < |vertices| && vertices[j].id == w) &&
    (forall i, w :: 0 <= i < |vertices| && w in vertices[i].incoming ==>
      exists j :: 0 <= j < |vertices| && vertices[j].id == w) &&
    (forall i, j :: 0 <= i < |vertices| && 0 <= j < |vertices| ==>
      (vertices[j].id in vertices[i].outgoing <==> vertices[i].id in vertices[j].incoming))
  }

  /** initialize_input, from the parsed edge list on. */
  method InitializeInput(edges: seq<Edge>) returns (vertices: seq<Vertex>)
    ensures vertices == AscendingById(VertexTable(edges))
    ensures |vertices| == |Endpoints(edges)|
    ensures forall id :: id in Endpoints(edges) <==>
      exists i :: 0 <= i < |vertices| && vertices[i].id == id
    ensures forall i :: 0 <= i < |vertices| ==>
      vertices[i].outgoing == Heads(edges, vertices[i].id) &&
      vertices[i].incoming == Tails(edges, vertices[i].id)
    ensures WellLinked(vertices)
  {
    var table := BuildVertexTable(edges);
    vertices := AscendingById(table);
    ListingFacts(edges, vertices);
  }

  lemma ListingFacts(edges: seq<Edge>, vertices: seq<Vertex>)
    requires vertices == AscendingById(VertexTable(edges))
    ensures |vertices| == |Endpoints(edges)|
    ensures forall id :: id in Endpoints(edges) <==>
      exists i :: 0 <= i < |vertices| && vertices[i].id == id
    ensures forall i :: 0 <= i < |vertices| ==>
      vertices[i].outgoing == Heads(edges, vertices[i].id) &&
      vertices[i].incoming == Tails(edges, vertices[i].id)
    ensures WellLinked(vertices)
  {
    var table := VertexTable(edges);
    assert table.Keys == Endpoints(edges);
    forall i | 0 <= i < |vertices|
      ensures vertices[i].outgoing == Heads(edges, vertices[i].id)
      ensures vertices[i].incoming == Tails(edges, vertices[i].id)
    {
      assert vertices[i] == table[vertices[i].id];
    }
    forall i, w | 0 <= i < |vertices| && w in vertices[i].outgoing
      ensures exists j :: 0 <= j < |vertices| && vertices[j].id == w
    {
      assert vertices[i] == table[vertices[i].id];
      assert w in table;
    }
    forall i, w | 0 <= i < |vertices| && w in vertices[i].incoming
      ensures exists j :: 0 <= j < |vertices| && vertices[j].id == w
    {
      assert vertices[i] == table[vertices[i].id];
      assert w in table;
    }
    forall i, j | 0 <= i < |vertices| && 0 <= j < |vertices|
      ensures vertices[j].id in vertices[i].outgoing <==> vertices[i].id in vertices[j].incoming
    {
      assert vertices[i] == table[vertices[i].id];
      assert vertices[j] == table[vertices[j].id];
    }
  }

  /** Since the neighbour collections are sets, the table depends only on
      which edges occur, not on their order or repetition. */
  lemma {:induction false} SameEdgesSameTable(edges: seq<Edge>, others: seq<Edge>)
    requires forall e :: e in edges <==> e in others
    ensures VertexTable(edges) == VertexTable(others)
  {
    assert Endpoints(edges) == Endpoints(others);
    forall id ensures Heads(edges, id) == Heads(others, id) && Tails(edges, id) == Tails(others, id) {
    }
  }

  /** Adding another copy of an edge that is already present changes nothing. */
  lemma {:induction false} RepeatedEdge(edges: seq<Edge>, e: Edge)
    requires e in edges
    ensures VertexTable(edges + [e]) == VertexTable(edges)
  {
    SameEdgesSameTable(edges + [e], edges);
  }
}
