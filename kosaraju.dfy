/** The whole script, from the parsed edge list to the reported sizes:
    build the graph, run the two DFS-Loops of Kosaraju's algorithm, and
    report the five largest strongly connected components. */
module Kosaraju {
  import opened Seqs
  import Builder
  import opened Digraph
  import opened FinishOrder
  import opened FirstPass
  import opened Reorder
  import opened SecondPass
  import opened CountSccs
  import opened Report
  import opened Partition

  /** The graph the edges describe, each vertex ID replaced by its rank
      in ascending-ID order: one vertex per endpoint. */
  ghost function GraphOf(edges: seq<Builder.Edge>): (g: Graph)
    ensures g.Valid() && g.Size() == |Builder.Endpoints(edges)|
  {
    var vertices := Builder.AscendingById(Builder.VertexTable(edges));
    Builder.ListingFacts(edges, vertices);
    FromVertices(vertices)
  }

  /** The ID of the vertex with dense index i. */
  ghost function IdAt(edges: seq<Builder.Edge>, i: nat): int
    requires i < |Builder.VertexTable(edges)|
  {
    Builder.AscendingById(Builder.VertexTable(edges))[i].id
  }

  /** The dense graph has an edge i -> j exactly when the edge list joins
      the IDs of i and j. */
  lemma GraphOfEdges(edges: seq<Builder.Edge>, i: nat, j: nat)
    requires i < GraphOf(edges).Size() && j < GraphOf(edges).Size()
    ensures i < |Builder.VertexTable(edges)| && j < |Builder.VertexTable(edges)|
    ensures j in GraphOf(edges).outgoing[i] <==> (IdAt(edges, i), IdAt(edges, j)) in edges
  {
    var table := Builder.VertexTable(edges);
    var vertices := Builder.AscendingById(table);
    Builder.ListingFacts(edges, vertices);
    assert vertices[i] == table[vertices[i].id] && vertices[j] == table[vertices[j].id];
  }

  /** The graph depends only on which edges occur: the order of the lines
      and repeated lines make no difference. */
  lemma GraphOfSameEdges(edges: seq<Builder.Edge>, others: seq<Builder.Edge>)
    requires forall e :: e in edges <==> e in others
    ensures GraphOf(edges) == GraphOf(others)
  {
    Builder.SameEdgesSameTable(edges, others);
  }

  /** Both DFS-Loops and the reorder between them, on the dense graph:
      one size per component found, each component the strongly connected
      component of its root, every vertex in exactly one of them. */
  method ComponentSizes(g: Graph) returns (sccSizes: seq<nat>, ghost roots: seq<nat>, ghost comps: seq<set<nat>>)
    requires g.Valid()
    ensures |sccSizes| == |roots| == |comps|
    ensures forall c :: 0 <= c < |comps| ==>
      roots[c] < g.Size() && comps[c] == SccOf(g.outgoing, roots[c]) &&
      sccSizes[c] == |comps[c]| && sccSizes[c] >= 1
    ensures Disjoint(comps) && Union(comps) == Range(g.Size())
    ensures Sum(sccSizes) == g.Size()
  {
    var n := g.Size();
    var explored := new bool[n](v => false);
    var finishTime := new int[n](v => 0);
    ghost var popped := AssignFinishTimes(g, explored, finishTime);
    var order := new nat[n](v => v);
    assert IsPermutation(order[..], n);
    SortByFinishTime(order, finishTime);
    ResetExplored(order, explored);
    FinishOrderUnique(finishTime[..], order[..], popped);
    sccSizes, roots, comps := CountComponents(g, order, explored);
  }

  /** The script after the input is read: sizes of the components in the
      order pass 2 finds them, and the five-entry report. Each size is that
      of a genuine strongly connected component, every vertex lies in
      exactly one of them, and the report is the five largest sizes in
      decreasing order, padded with zeros. */
  method StronglyConnectedComponents(edges: seq<Builder.Edge>)
    returns (sccSizes: seq<nat>, report: seq<nat>, ghost roots: seq<nat>, ghost comps: seq<set<nat>>)
    ensures |sccSizes| == |roots| == |comps|
    ensures forall c :: 0 <= c < |comps| ==>
      roots[c] < GraphOf(edges).Size() &&
      comps[c] == SccOf(GraphOf(edges).outgoing, roots[c]) &&
      sccSizes[c] == |comps[c]| && sccSizes[c] >= 1
    ensures Disjoint(comps) && Union(comps) == Range(|Builder.Endpoints(edges)|)
    ensures Sum(sccSizes) == |Builder.Endpoints(edges)|
    ensures SccPartition(GraphOf(edges), sccSizes, roots, comps)
    ensures report == LargestFive(sccSizes) && |report| == 5 && NonIncreasing(report)
  {
    var vertices := Builder.InitializeInput(edges);
    var g := FromVertices(vertices);
    assert g == GraphOf(edges);
    sccSizes, roots, comps := ComponentSizes(g);
    report := ReportLargest(sccSizes);
  }
}
