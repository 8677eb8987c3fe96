# Strongly connected components by Kosaraju's algorithm

This project models a script that reads a directed graph as an edge list.
It finds the graph's strongly connected components with Kosaraju's
two-pass iterative depth-first search. It then reports the sizes of the
five largest components, in decreasing order, padded with zeros.

The model follows the script step by step:

- **Builder** (`builder.dfy`). The edge loop fills a table from vertex ID
  to a vertex record, which holds the ID, the outgoing neighbour IDs and
  the incoming neighbour IDs. The vertices are then listed in ascending ID
  order. `BuildVertexTable` is the loop. `VertexTable` is what the table
  holds after any prefix of the edges. `InitializeInput` is the whole
  function.
- **Dense graph** (`digraph.dfy`). Each vertex is named by its position
  in the ascending-ID list. `Graph` holds the outgoing and incoming
  adjacency as sequences of sets of positions. The module also defines
  paths, reachability and the strongly connected component of a vertex.
- **DFS invariant** (`dfs.dfy`). This is the state both passes keep while
  their explicit stack runs. Every step of the loop preserves it.
- **Pass 1** (`finish_order.dfy`, `first_pass.dfy`). This is the DFS-Loop
  along incoming edges, with roots taken in descending ID order. It
  stamps the finish times 1..N. The proof carries the finishing-order
  property Kosaraju's algorithm rests on: if u reaches y but y does not
  reach u, some vertex of u's component finishes after y.
- **Reorder** (`reorder.dfy`). The vertex list is sorted by finish time
  and every explored flag is cleared.
- **Pass 2** (`second_pass.dfy`). This is the DFS-Loop along outgoing
  edges, with roots taken in descending finish time. It counts the pops
  of each root's search. Each count is proved to be the size of the root's
  strongly connected component. The components are disjoint, cover every
  vertex, and their sizes sum to N.
- **Partition** (`partition.dfy`). Any two such partitions have the same
  multiset of sizes. So the report does not depend on which unexplored
  neighbour each DFS step picked.
- **Report** (`report.dfy`). Pad to five, sort in decreasing order, keep
  the first five.
- **Kosaraju** (`kosaraju.dfy`). The script from the edge list to the
  report.

Each vertex's `explored` and `finish_time` attributes are kept in arrays
indexed by dense position. The arrays are updated in place, as the script
updates its vertex objects. The neighbour that a DFS step pushes is chosen
nondeterministically among the unexplored ones, so every iteration order
of a Python set is covered. The pop order of each pass is recorded as a
proof-only sequence.

The script accepts any integer vertex ID, and so does the model. The
script defines no error of its own for a malformed line; parsing is left
out (see below), and the model starts from already-parsed edges.

## Model

| member | source | states |
|---|---|---|
| Builder.VertexTable | Week4/PythonProgram/StronglyConnectedComponents.py:41-65 | after the edge loop the table's keys are exactly the edge endpoints; each record carries its own ID; every neighbour is itself a key; and v is an outgoing neighbour of u exactly when u is an incoming neighbour of v |
| Builder.AppendEdge | Week4/PythonProgram/StronglyConnectedComponents.py:52-65 | one more edge (t, h) adds t and h to the vertices, h to t's outgoing set and t to h's incoming set, and changes nothing else |
| Builder.EdgeStep | Week4/PythonProgram/StronglyConnectedComponents.py:52-65 | one pass of the loop body (fetch or create both endpoints, then add the two adjacency entries) takes the table for the edges so far to the table for one edge more |
| Builder.BuildVertexTable | Week4/PythonProgram/StronglyConnectedComponents.py:41-66 | the loop over all edges leaves exactly the table that the edge list describes |
| Builder.Smallest | Week4/PythonProgram/StronglyConnectedComponents.py:67 | the result is a member of the ID set that is no larger than any other member |
| Builder.SortedIds | Week4/PythonProgram/StronglyConnectedComponents.py:67 | the IDs are in strictly ascending order, each ID occurs, and there is one entry per ID |
| Builder.AscendingById | Week4/PythonProgram/StronglyConnectedComponents.py:67 | `sorted(..., key=vertex_id)` lists every vertex of the table exactly once, in strictly ascending ID order |
| Builder.InitializeInput | Week4/PythonProgram/StronglyConnectedComponents.py:41-67 | returns one vertex per endpoint, in ascending ID order; each vertex's outgoing and incoming sets are exactly its heads and tails in the edge list; neighbours are listed vertices; adjacency is dual |
| Builder.ListingFacts | Week4/PythonProgram/StronglyConnectedComponents.py:41-67 | the same facts, for the ascending listing of the table of any edge list |
| Builder.SameEdgesSameTable | Week4/PythonProgram/StronglyConnectedComponents.py:64-65 | two edge lists holding the same edges, in any order and with any repetition, build the same table |
| Builder.RepeatedEdge | Week4/PythonProgram/StronglyConnectedComponents.py:64-65 | a repeated edge leaves the table unchanged: duplicate edges collapse |
| Digraph.IndexOf | Week4/PythonProgram/StronglyConnectedComponents.py:67 | maps each listed ID to its position and each position back to its ID |
| Digraph.FromVertices | Week4/PythonProgram/StronglyConnectedComponents.py:70-77 | the dense graph is valid, with one vertex per listed vertex; j is an outgoing (incoming) neighbour of i exactly when j's ID is in i's outgoing (incoming) set |
| Digraph.FromVerticesFacts | Week4/PythonProgram/StronglyConnectedComponents.py:64-65 | the index-based adjacency built from dual ID sets is itself dual and in range |
| Digraph.ReachTrans | Week4/PythonProgram/StronglyConnectedComponents.py:106-110 | reachability is transitive: paths compose |
| Digraph.SameSccTrans | Week4/PythonProgram/StronglyConnectedComponents.py:129-146 | being in the same component is transitive |
| Digraph.ReachReversed | Week4/PythonProgram/StronglyConnectedComponents.py:106 | a reaches b along outgoing edges exactly when b reaches a along incoming edges |
| Digraph.SameSccReversed | Week4/PythonProgram/StronglyConnectedComponents.py:106 | the reversed graph that pass 1 walks has the same components as the graph |
| Digraph.ClosedUnderReach | Week4/PythonProgram/StronglyConnectedComponents.py:137-141 | when every neighbour of a marked vertex is marked, the end of a path from a marked vertex is marked |
| Digraph.ReachMarked | Week4/PythonProgram/StronglyConnectedComponents.py:137-141 | the same, for any vertex reachable from a marked one |
| Dfs.StartAt | Week4/PythonProgram/StronglyConnectedComponents.py:101 | pushing an unexplored root onto the empty stack keeps the DFS invariant |
| Dfs.MarkTop | Week4/PythonProgram/StronglyConnectedComponents.py:103-104 | marking the top of the stack explored keeps the DFS invariant |
| Dfs.PushNeighbour | Week4/PythonProgram/StronglyConnectedComponents.py:106-110 | pushing an unexplored neighbour of the top keeps the DFS invariant |
| Dfs.PopTop | Week4/PythonProgram/StronglyConnectedComponents.py:111-113 | popping a top with no unexplored neighbour keeps the DFS invariant, with the top recorded as popped |
| Dfs.IdleClosed | Week4/PythonProgram/StronglyConnectedComponents.py:102 | once the stack is empty, every neighbour of an explored vertex is explored |
| Dfs.StateBound | Week4/PythonProgram/StronglyConnectedComponents.py:101-115 | popped and stacked vertices together number at most N, so the loop terminates |
| Dfs.StackReachesTop | Week4/PythonProgram/StronglyConnectedComponents.py:106-110 | every stack entry reaches the top of the stack |
| Dfs.LeavesThroughStack | Week4/PythonProgram/StronglyConnectedComponents.py:101-115 | a path from a popped vertex to an unpopped one passes through a stack entry that the start reaches |
| Dfs.SearchStart | Week4/PythonProgram/StronglyConnectedComponents.py:101 | a search starts with only its root, reached from itself and unexplored, on the stack |
| Dfs.SearchPush | Week4/PythonProgram/StronglyConnectedComponents.py:106-110 | pushing a neighbour of the top that was unexplored when the search began keeps every stack entry and every new pop reachable from the root |
| Dfs.SearchPop | Week4/PythonProgram/StronglyConnectedComponents.py:113 | popping the top moves it from the stack to the search's pop record, which stays reachable from the root |
| Dfs.ComponentPopped | Week4/PythonProgram/StronglyConnectedComponents.py:101-115 | when a search from root along either adjacency ends, the vertices it popped are exactly the previously unexplored vertices the root reaches, each popped once |
| FinishOrder.PendingEmpty | Week4/PythonProgram/StronglyConnectedComponents.py:96 | the finishing-order property holds before anything is popped |
| FinishOrder.PendingGrow | Week4/PythonProgram/StronglyConnectedComponents.py:106-110 | pushing a vertex keeps the finishing-order property |
| FinishOrder.PoppedTopCase | Week4/PythonProgram/StronglyConnectedComponents.py:113-115 | when the popped top reaches y but y does not reach it, y finished earlier or the top's component is still on the stack |
| FinishOrder.PendingPop | Week4/PythonProgram/StronglyConnectedComponents.py:113-115 | popping and stamping the top keeps the finishing-order property |
| FinishOrder.PendingIdle | Week4/PythonProgram/StronglyConnectedComponents.py:102 | with the stack empty, the finishing-order property holds outright |
| FirstPass.FinishFrom | Week4/PythonProgram/StronglyConnectedComponents.py:101-115 | one DFS along incoming edges from an unexplored root: it pops exactly the previously unexplored vertices the root reaches along incoming edges, the root among them; the vertex popped k-th in the pass gets finish time k+1; every other finish time is unchanged; the DFS invariant and the finishing-order property are kept |
| FirstPass.FinishStep | Week4/PythonProgram/StronglyConnectedComponents.py:103-115 | one turn of the stack loop (mark the top explored, then push an unexplored incoming neighbour or pop and stamp the top) keeps the search's invariant and strictly decreases the loop measure |
| FirstPass.Untouched | Week4/PythonProgram/StronglyConnectedComponents.py:113-115 | a finish time changes only when its vertex is popped in this search |
| FirstPass.AllPopped | Week4/PythonProgram/StronglyConnectedComponents.py:97-98 | once every vertex has been popped, every vertex is explored |
| FirstPass.FinishPermutation | Week4/PythonProgram/StronglyConnectedComponents.py:114-115 | numbering the pops of all N vertices 1, 2, ... gives finish times that are exactly 1..N, each used once |
| FirstPass.AssignFinishTimes | Week4/PythonProgram/StronglyConnectedComponents.py:96-115 | pass 1 explores every vertex and pops each exactly once; the k-th pop gets finish time k+1; the finish times are a permutation of 1..N; and the pop order satisfies the finishing-order property |
| Reorder.PlaceByFinishTime | Week4/PythonProgram/StronglyConnectedComponents.py:121 | returns a new list of all N vertices in which position k holds the vertex with finish time k+1 |
| Reorder.PlacedByFinishTime | Week4/PythonProgram/StronglyConnectedComponents.py:121 | a list holding each vertex at the position its finish time names is a permutation and is ordered by finish time |
| Reorder.SortByFinishTime | Week4/PythonProgram/StronglyConnectedComponents.py:121 | `sort(key=finish_time)` leaves the same vertices, in which position k holds the vertex with finish time k+1 |
| Reorder.FinishOrderAscending | Week4/PythonProgram/StronglyConnectedComponents.py:121 | the reordered list is in strictly increasing finish time |
| Reorder.FinishOrderUnique | Week4/PythonProgram/StronglyConnectedComponents.py:121 | only one list has that property, so the sorted list equals pass 1's pop order |
| Reorder.ResetExplored | Week4/PythonProgram/StronglyConnectedComponents.py:124-125 | afterwards no vertex is explored |
| SecondPass.UnionMembers | Week4/PythonProgram/StronglyConnectedComponents.py:129-146 | a vertex is in the union of the components exactly when it is in one of them |
| SecondPass.CountFrom | Week4/PythonProgram/StronglyConnectedComponents.py:131-146 | one DFS along outgoing edges from an unexplored root: the count is the number of unexplored vertices the root reaches, at least 1; those vertices are exactly the new pops; the root is explored; explored only grows; the DFS invariant is kept |
| SecondPass.LaterVertexReaches | Week4/PythonProgram/StronglyConnectedComponents.py:129-130 | when the roots are taken in decreasing finish time, any vertex that the next root reaches but that cannot reach back is already explored |
| SecondPass.ComponentIsScc | Week4/PythonProgram/StronglyConnectedComponents.py:129-146 | so each root's search counts exactly the root's strongly connected component |
| CountSccs.CountComponents | Week4/PythonProgram/StronglyConnectedComponents.py:128-146 | pass 2 returns one size per component found, each at least 1 and the size of its component; the components hold their roots, are disjoint, cover all N vertices, and their sizes sum to N; when the order has the finishing-order property, each component is its root's strongly connected component; every vertex ends explored |
| CountSccs.TakeRoot | Week4/PythonProgram/StronglyConnectedComponents.py:129-146 | one iteration of the root loop: an explored root leaves sizes, roots, components and pop record unchanged; an unexplored root appends its count, itself and its component (its previously unexplored reach); the pop record only grows; the DFS invariant, the running tally and the component facts are kept; this root and every later one end explored |
| CountSccs.NewComponent | Week4/PythonProgram/StronglyConnectedComponents.py:146 | the new component is disjoint from earlier ones, and the pop record covers exactly their union |
| CountSccs.AllExplored | Week4/PythonProgram/StronglyConnectedComponents.py:129 | after the root loop every vertex is explored and popped |
| CountSccs.CoverAll | Week4/PythonProgram/StronglyConnectedComponents.py:128-146 | the components then cover exactly the vertices 0..N-1, and N vertices were popped |
| Partition.SccOfMember | Week4/PythonProgram/StronglyConnectedComponents.py:129-146 | every member of a strongly connected component has that component as its own |
| Partition.SameComponents | Week4/PythonProgram/StronglyConnectedComponents.py:129-146 | every component of one partition into strongly connected components occurs in any other |
| Partition.DisjointDistinct | Week4/PythonProgram/StronglyConnectedComponents.py:146 | disjoint non-empty components are pairwise different |
| Partition.PartitionSizes | Week4/PythonProgram/StronglyConnectedComponents.py:146 | two lists of the same distinct components have the same multiset of sizes |
| Partition.RunsAgree | Week4/PythonProgram/StronglyConnectedComponents.py:106-110 | whichever unexplored neighbour each DFS step takes, two runs give the same multiset of sizes and the same report |
| Report.Insert | Week4/PythonProgram/StronglyConnectedComponents.py:151 | inserting into a non-increasing list gives a non-increasing list with one more entry and the same elements plus the new one |
| Report.SortDescending | Week4/PythonProgram/StronglyConnectedComponents.py:151 | `sort(reverse=True)` gives a non-increasing permutation of its input |
| Report.SortedUnique | Week4/PythonProgram/StronglyConnectedComponents.py:151 | two non-increasing lists with the same elements are equal, so the sort's result does not depend on how it sorts |
| Report.PadToFive | Week4/PythonProgram/StronglyConnectedComponents.py:148-149 | the padded list keeps the sizes as its prefix, followed by zeros, and has length max(5, number of sizes) |
| Report.PaddedSort | Week4/PythonProgram/StronglyConnectedComponents.py:148-152 | padding and then sorting gives the same first five entries as sorting and then padding |
| Report.LargestFive | Week4/PythonProgram/StronglyConnectedComponents.py:148-152 | the report has five entries in non-increasing order |
| Report.LargestFiveFacts | Week4/PythonProgram/StronglyConnectedComponents.py:148-152 | with fewer than five sizes, the report holds all of them and zeros besides; otherwise it holds five of them; no size left out exceeds the smallest one reported |
| Report.ReportLargest | Week4/PythonProgram/StronglyConnectedComponents.py:148-152 | pad, sort and slice: five entries, non-increasing, all the sizes plus zeros when there are fewer than five, otherwise five of the sizes with none left out larger than the fifth |
| Report.ReportOfComponents | Week4/PythonProgram/StronglyConnectedComponents.py:11-15 | when every size is at least 1, entry k of the report is 0 exactly when fewer than k+1 components exist |
| Kosaraju.GraphOf | Week4/PythonProgram/StronglyConnectedComponents.py:41-77 | the graph an edge list describes is valid and has one vertex per endpoint |
| Kosaraju.GraphOfEdges | Week4/PythonProgram/StronglyConnectedComponents.py:64-65 | the dense graph has an edge i -> j exactly when the edge list joins the IDs of i and j |
| Kosaraju.GraphOfSameEdges | Week4/PythonProgram/StronglyConnectedComponents.py:45-65 | the order of the edges and repeated edges do not change the graph |
| Kosaraju.ComponentSizes | Week4/PythonProgram/StronglyConnectedComponents.py:96-146 | both passes and the reorder between them give one size per genuine strongly connected component, each at least 1; the components are disjoint and cover every vertex; the sizes sum to N |
| Kosaraju.StronglyConnectedComponents | Week4/PythonProgram/StronglyConnectedComponents.py:90-152 | from the edge list: the sizes of a partition of the endpoints into their strongly connected components, summing to the number of endpoints, and the report of the five largest sizes in decreasing order, zero-padded |

## Left out

- Archive extraction, file reading and deletion, and `sys.argv` handling (lines 24-39, 90-91, 153-154) are I/O. The model starts from the parsed edge list.
- Splitting a line and converting it with `int()` (lines 49-50) is outside the core. A line that does not parse makes the script raise, and this is not modelled.
- The progress and result messages (lines 34-36, 44-47, 93-94, 120, 127, 152) are printout only. The report is the returned five-entry list, not its comma-joined text.
- The progress-tick arithmetic (lines 42-43) is part of the printout and is not modelled. For input with fewer than 100000 lines, `number_of_ticks` is 0 and line 43 divides by zero.
- `Vertex.__eq__` and `__hash__` (lines 83-87) only make vertices with the same ID equal. The model names a vertex by its ID, or by its position in the ascending list.
- Vertex objects are not modelled as a class. The per-vertex `explored` and `finish_time` fields are arrays indexed by position, so aliasing between vertex objects is not captured. The neighbour sets are immutable values.
- The neighbour-set iteration order (lines 106, 137) is modelled as a free choice among the unexplored neighbours, not as CPython's hash order.
- Reorder.SortByFinishTime: `list.sort` is modelled by placing each vertex at index finish_time - 1 and copying back. This is not a comparison sort. The finish times are distinct, so any correct sort ends in this same list, as Reorder.FinishOrderUnique states.
- Memory exhaustion on very large graphs is not modelled.
