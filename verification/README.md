# Route-finding graph core, modelled in Dafny

This project models the graph core of a small route-finding server for a road map.

- `graph.py` holds a directed graph stored as an adjacency list. Around it sit `is_walk` and
  `is_path`, two reachability searches that build a predecessor map, and
  `count_components`.
- `Archive/graph_old3.py` holds an older graph keyed by (latitude, longitude). It keeps an
  index from integer vertex IDs back to coordinates, and its searches accept either form of
  key.
- `server_new.py` holds `least_cost_path`, a Dijkstra-style search that rebuilds the
  cheapest route from `start` to `dest`.

The Dafny modules are:

- `Wrappers` (wrappers.dfy): `Option` and `Result`.
- `Digraph` (digraph.dfy): the `graph.py` graph, with `Graph.order` standing for the
  dictionary's insertion order.
- `Search` (search.dfy): both searches of `graph.py`. They are generic over the vertex
  type. Each returns the predecessor map, the order in which vertices were reached, and a
  ghost depth per vertex.
- `Components` (components.dfy): `count_components`.
- `CoordGraph` (coord_graph.dfy): the coordinate/ID graph of `graph_old3.py` and its two
  ID-resolving searches. These run the `Search` methods on the adjacency graph underneath.
- `LeastCost` (least_cost.dfy): `least_cost_path` as written, one loop round at a time.
  Exceptions and the backtracking loop that can never end are explicit outcomes
  (`Raised`, `Hang`).
- `LeastCostCorrected` (least_cost_corrected.dfy): the corrected least-cost path, proved
  optimal.

The two searches of `graph.py` carry each other's names. `breadth_first_search` pops the
end of its work list, so it searches depth-first. `depth_first_search` pops the front, so
it searches breadth-first and yields minimum-hop predecessors. The model keeps the source's
names and proves the minimum-hop property only for the second.

Edge costs are natural numbers given by a function parameter. The source's
`float("inf")` is the `Inf` case of `LeastCost.Cost`.

## Model

| member | source | states |
|---|---|---|
| Digraph.Empty | graph.py:24-52 | The graph with no arguments has no vertices and satisfies the representation invariant. |
| Digraph.AddVertex | graph.py:60-75 | The vertex set grows by exactly `v`. An existing vertex leaves the graph unchanged. A new vertex has an empty neighbour list. Other lists are untouched and the invariant is kept. |
| Digraph.AddVertexIdempotent | graph.py:66-72 | Adding a vertex a second time changes nothing, and the number of vertices stays the same. |
| Digraph.Vertices | graph.py:120-131 | The returned set holds exactly the vertices. |
| Digraph.Neighbours | graph.py:99-118 | An unknown vertex has the empty list, and a vertex has its own list. Every neighbour is a vertex. |
| Digraph.IsEdgeIffNeighbour | graph.py:167-185 | `is_edge((u, v))` holds exactly when `v` is among the neighbours of `u`, and then both ends are vertices. |
| Digraph.AddEdge | graph.py:77-97 | With both ends present, `v` is appended to the list of `u` and its count there rises by one. Otherwise nothing changes. The edge relation gains exactly `(u, v)` and other lists are untouched. |
| Digraph.AddEdgeKeepsParallelEdges | graph.py:82-94 | Adding the same edge twice lists the target twice more, so the list grows by two. |
| Digraph.AddEdgeTwiceExample | graph.py:86-94 | On vertices {1, 2}, adding (1, 2) twice leaves the list [2, 2] for vertex 1. |
| Digraph.AddVertices | graph.py:54-55 | Adding a sequence of vertices gives exactly the old vertices plus those of the sequence. Old lists are kept and new lists are empty. |
| Digraph.AddEdges | graph.py:57-58 | After adding a sequence of edges, the edges are the old ones plus those listed whose two ends are vertices. |
| Digraph.Build | graph.py:24-58 | The constructor's vertices are exactly those given. Its edges are exactly the given pairs with both ends among them. |
| Digraph.EdgesMultiplicity | graph.py:133-149 | `edges()` lists `(a, b)` as often as `b` occurs in the list of `a`. A pair occurs in it exactly when `is_edge` holds, and its length is the total list length. |
| Digraph.IsWalk | graph.py:187-224 | The loop result is true exactly when the sequence is non-empty, every element is a vertex, and every step is an edge. |
| Digraph.DistinctIffCardinality | graph.py:240 | `len(path) == len(set(path))` holds exactly when no element repeats. |
| Digraph.IsPath | graph.py:226-240 | `is_path` holds exactly for walks without a repeated vertex. |
| Digraph.RemoveAll | graph.py:371-372 | Striking the reached vertices from the pool keeps exactly the others, without repeats. The pool shrinks when one was present. |
| Digraph.RemoveAllKeepsOrder | graph.py:371-372 | The vertices left in the pool keep their original relative order: they form a subsequence of the old pool. |
| Search.ClosedSetContainsWalks | graph.py:271-285 | A set that contains `start` and is closed under edges contains the end of every walk from `start`. |
| Search.TreeWalk | graph.py:277-284 | Following the predecessor map from a reached vertex gives a walk from `start` whose length matches the vertex's depth. |
| Search.DepthBoundsWalks | graph.py:310-311 | If depths rise by at most one along each edge and `start` has depth 0, no walk to `t` is shorter than the depth of `t`. |
| Search.BreadthFirstSearch | graph.py:242-285 | `start` is its own predecessor. Every other reached vertex has a reached predecessor with an edge to it. The reached set is exactly the vertices reachable from `start`. The order lists each reached vertex once. |
| Search.DepthFirstSearch | graph.py:287-331 | The same guarantees as the stack search. In addition, no walk from `start` to `u` is shorter than the depth of `u` in the predecessor tree, so the tree gives minimum hops. |
| Components.SameComponent | graph.py:338-344 | When every edge has its reverse, two vertices that reach one another have the same component. |
| Components.CountStep | graph.py:363-374 | One round counts a component not yet counted, and the pool keeps exactly the uncovered vertices. |
| Components.SearchComponent | graph.py:367 | The queue search from a vertex returns exactly that vertex's component. |
| Components.CountComponents | graph.py:334-375 | When every edge has its reverse, the result is the number of distinct components. For any graph it is at most the number of vertices. |
| CoordGraph.Empty | Archive/graph_old3.py:37-83 | The empty graph is well formed and its ID index is consistent. No key names a vertex. |
| CoordGraph.IdToCoord | Archive/graph_old3.py:91-107 | An ID gives coordinates exactly when it is indexed. With a sound index those coordinates are a vertex carrying the ID. |
| CoordGraph.CoordToId | Archive/graph_old3.py:109-126 | None exactly for absent coordinates or a vertex without an ID. With a consistent index, the ID maps back to the coordinates. |
| CoordGraph.IdCoordRoundTrip | Archive/graph_old3.py:91-126 | With a consistent index, `id_to_coord(i) == c` holds exactly when `coord_to_id(c) == i`. |
| CoordGraph.IsVertex | Archive/graph_old3.py:310-328 | Coordinates are a vertex exactly when stored. An integer is a vertex exactly when it is indexed and its coordinates are stored. |
| CoordGraph.IsVertexById | Archive/graph_old3.py:310-328 | With a sound index, an integer names a vertex exactly when it is an indexed ID. |
| CoordGraph.Place | Archive/graph_old3.py:157-158 | Absent coordinates join with no neighbours and no ID. Present ones are untouched and the index is unchanged. |
| CoordGraph.PlaceKeeps | Archive/graph_old3.py:157-158 | Placing coordinates keeps neighbours closed and a consistent index consistent. |
| CoordGraph.AssignId | Archive/graph_old3.py:161-168 | First assignment: the vertex takes the ID in both directions. The vertex that held the ID loses it. Every other ID and vertex is unchanged and the index stays sound. |
| CoordGraph.ReassignId | Archive/graph_old3.py:170-174 | Update: this raises `KeyError` exactly when the old ID is no longer indexed. Otherwise the vertex takes the new ID and its old ID leaves the index. No other vertex's entry changes, and every other index entry is kept. |
| CoordGraph.AddVertex | Archive/graph_old3.py:128-174 | `add_vertex` fails exactly in the update branch when the old ID is missing from the index. On success the vertex set grows by the coordinates, neighbour lists are kept, the index stays sound, and the new ID maps both ways. With an ID, only the vertex itself and the previous holder of the ID can change IDs, and the index changes only at the new ID and the vertex's old ID. Without an ID, no ID changes. |
| CoordGraph.AddVertexIdempotent | Archive/graph_old3.py:131-133 | Re-adding present coordinates without an ID changes nothing; an existing ID is not removed. |
| CoordGraph.AddVertexRevokes | Archive/graph_old3.py:135-136 | Giving an ID to coordinates without one takes it from its previous holder. All other IDs are unchanged. |
| CoordGraph.AddVertexDropsOldId | Archive/graph_old3.py:170-174 | Updating a vertex's ID removes the old ID from the index. |
| CoordGraph.AssignIdConsistent | Archive/graph_old3.py:161-168 | First assignment keeps the two indexes consistent. |
| CoordGraph.ReassignIdConsistent | Archive/graph_old3.py:170-174 | An update keeps the indexes consistent when no other vertex holds the new ID. |
| CoordGraph.AddVertexKeepsConsistent | Archive/graph_old3.py:128-174 | From a consistent graph, `add_vertex` succeeds and stays consistent unless the update branch reuses an ID that another vertex holds. |
| CoordGraph.FreshIdStep | Archive/graph_old3.py:140-145 | On the empty graph, `add_vertex((a, i))` gives the single vertex `a` carrying ID `i`. |
| CoordGraph.TakeIdStep | Archive/graph_old3.py:146-150 | A second vertex given the same ID takes it, and the first vertex is left without an ID. |
| CoordGraph.MoveIdStep | Archive/graph_old3.py:151-155 | Re-assigning that vertex a new ID leaves the old ID unindexed. |
| CoordGraph.HolderConsistent | Archive/graph_old3.py:151-155 | The state that sequence ends in is consistent. |
| CoordGraph.AddVertexMovesIdExample | Archive/graph_old3.py:140-155 | Through the whole documented sequence the ID moves to the second vertex. The final state gives ID 2 to that vertex, leaves ID 1 unused, and is consistent. |
| CoordGraph.SecondIdStep | Archive/graph_old3.py:161-168 | A second vertex given a second fresh ID gets it in both directions. |
| CoordGraph.StaleUpdateStep | Archive/graph_old3.py:170-174 | The update branch gives vertex B the ID that A holds and leaves A holding it too. |
| CoordGraph.StalePopStep | Archive/graph_old3.py:170-174 | A then moves to ID 3 and pops ID 1 from the index, although B holds it. |
| CoordGraph.StaleIdExample | Archive/graph_old3.py:170-174 | In that sequence two vertices carry ID 1, the index is not consistent, and a later update of B raises `KeyError`. |
| CoordGraph.Release | Archive/graph_old3.py:164-166 | Taking an ID from its holder and out of the index keeps a consistent graph consistent. Nothing else changes. |
| CoordGraph.AddVertexRevoking | Archive/graph_old3.py:128-174 | The corrected `add_vertex` always succeeds on a consistent graph and keeps it consistent. The new ID maps both ways, and only the vertex itself and the previous holder of the ID change IDs. The vertex set and neighbour lists behave as in `add_vertex`. |
| CoordGraph.AddVertexRevokingAgrees | Archive/graph_old3.py:128-174 | Where the source's `add_vertex` keeps consistency, the corrected version returns the same graph. |
| CoordGraph.AddId | Archive/graph_old3.py:176-197 | Absent coordinates leave the graph unchanged. Otherwise the vertex takes the ID in both directions, and the vertex set and soundness are kept. |
| CoordGraph.IsEdge | Archive/graph_old3.py:330-356 | An edge needs a start that names a vertex and an end that resolves, so an unknown ID at either end gives false. With closed neighbour lists the end is a vertex too. |
| CoordGraph.IsEdgeResolves | Archive/graph_old3.py:330-356 | An edge between keys, IDs or coordinates, holds exactly when the start names a vertex, the end resolves, and the resolved coordinates form an edge; equivalently an edge of the adjacency graph underneath. |
| CoordGraph.AddEdge | Archive/graph_old3.py:199-229 | With both keys naming vertices (IDs resolved through the index), the end is appended to the start's list. Otherwise nothing changes. The edge relation gains exactly that pair, and the IDs are untouched. |
| CoordGraph.Neighbours | Archive/graph_old3.py:232-260 | None exactly when the key names no vertex. Otherwise the list holds exactly the ends of the key's edges, all of them vertices. It is the resolved vertex's list in the adjacency graph underneath, in insertion order and with parallel copies. |
| CoordGraph.Ids | Archive/graph_old3.py:293-308 | `ids()` holds exactly the pairs that `id_to_coord` gives. With a consistent index these are also the pairs `coord_to_id` gives. |
| CoordGraph.Project | Archive/graph_old3.py:330-356 | The adjacency graph underneath has exactly the coordinate edges of `is_edge`, and it is closed when the neighbours are. |
| CoordGraph.AddVertices | Archive/graph_old3.py:85-86 | Adding the vertices in order keeps the graph well formed, and on success the vertices are the old ones plus those given. |
| CoordGraph.AddVerticesSucceeds | Archive/graph_old3.py:85-86 | Adding the vertices succeeds when each one comes without an ID or is new, since only an update can pop a missing ID. |
| CoordGraph.AddVerticesKeepsLists | Archive/graph_old3.py:85-86 | Adding vertices adds no edge: existing lists are kept and new vertices have empty lists. |
| CoordGraph.AddEdges | Archive/graph_old3.py:88-89 | Adding the edges keeps the graph well formed and leaves the vertex set and the ID index unchanged. |
| CoordGraph.AddEdgesAdds | Archive/graph_old3.py:88-89 | After adding the edges, an edge between coordinates is an old edge or a listed pair whose two keys resolve to those vertices; none is lost. |
| CoordGraph.Build | Archive/graph_old3.py:37-89 | A successful construction is well formed, and its vertices are exactly the coordinates given. It succeeds when each vertex comes without an ID or is new. Its edges are exactly the listed pairs whose two keys resolve to vertices. |
| CoordGraph.BreadthFirstSearch | Archive/graph_old3.py:413-457 | A start that names no vertex raises `TypeError`. Otherwise the result is a predecessor tree rooted at the resolved start, covering exactly the reachable vertices. |
| CoordGraph.DepthFirstSearch | Archive/graph_old3.py:459-504 | As the stack search, and in addition each vertex's depth in the tree is its minimum number of hops. |
| LeastCost.Plus | server_new.py:66-67 | A sum is infinite exactly when an operand is. Otherwise it is the sum of the numbers. |
| LeastCost.Less | server_new.py:66 | The float comparison on costs: numbers compare as numbers, every number is below infinity, and infinity is below nothing. |
| LeastCost.LessStrictTotal | server_new.py:66 | That comparison is a strict total order with infinity on top. |
| LeastCost.Relax | server_new.py:64-67 | Reading a missing cost raises exactly when an unvisited neighbour or the current vertex is not in the table. Otherwise costs only go down, visited and non-neighbour costs are unchanged, and no unvisited neighbour stays above the cost through the current vertex. |
| LeastCost.RelaxValues | server_new.py:66-67 | Every cost the relaxation changes becomes the edge cost from the current vertex plus the current vertex's cost. |
| LeastCost.ArgMin | server_new.py:79 | `min(costs, key=costs.get)` picks a key no other key undercuts, and it is the first such key in dictionary order. |
| LeastCost.Arrivals | server_new.py:83-86 | A pair is recorded exactly when it is (visited out-neighbour, new current vertex) and its edge cost equals the rise in tentative cost. |
| LeastCost.FindBackFirst | server_new.py:94-95 | The backtracking scan finds nothing exactly when no out-neighbour's pair is recorded. What it finds is the first such neighbour. |
| LeastCost.RemoveFirst | server_new.py:96 | `list.remove` shortens the list by one and adds nothing. |
| LeastCost.RemoveFirstRemovesOne | server_new.py:96 | `list.remove` takes out exactly one occurrence. |
| LeastCost.Reverse | server_new.py:100 | `list.reverse` puts element `i` at position `len - 1 - i`. |
| LeastCost.BackStepsExtend | server_new.py:97-98 | Appending an out-neighbour of the last vertex keeps a backwards-built path well linked. |
| LeastCost.ReversedSteps | server_new.py:100 | Reversing a backwards-built path gives a path each of whose steps is an edge read from right to left. |
| LeastCost.Backtrack | server_new.py:93-102 | A found path starts at `start`, ends at the vertex backtracking began from, and is longer than the part already built. The path exists only when that vertex has an out-neighbour. |
| LeastCost.Initial | server_new.py:49-53 | Every vertex of the component costs infinity except `start`, which costs zero. `start` is current and nothing is visited. |
| LeastCost.Advance | server_new.py:59-86 | A round that does not raise keeps the loop invariant, marks the current vertex visited, and pops it from the component. |
| LeastCost.AdvanceLowers | server_new.py:64-76 | Such a round only lowers costs. It pops the current vertex from the table unless that vertex is the last key. |
| LeastCost.AdvanceChoosesCheapest | server_new.py:79 | The new current vertex is a key that no other key undercuts. |
| LeastCost.Arrive | server_new.py:88-102 | Reaching the destination stops with a path from `start` to `dest`, stops with a backtracking loop that can never end, or continues with the invariant. A destination without out-neighbours never yields a path. |
| LeastCost.Round | server_new.py:57-102 | A continuing round keeps the invariant and shrinks the component by the current vertex. A returned path runs from `start` to `dest` along reversed edges. |
| LeastCost.Run | server_new.py:57-104 | The loop ends in None when the component is exhausted. A returned path runs from `start` to `dest`, needs an out-neighbour of `dest`, and follows reversed edges. |
| LeastCost.LeastCostPath | server_new.py:16-104 | Equal ends give `[start]` and an unreachable destination gives None. A returned path exists only for a reachable destination and runs from `start` to `dest` along reversed edges. It never exists when `dest` has no out-neighbour. |
| LeastCost.ChainFacts | server_new.py:18-21 | On 1 -> 2 -> 3 the destination 3 is reachable from 1 but has no out-neighbour, so the call cannot return a path. |
| LeastCostCorrected.RelaxFrom | server_new.py:64-67 | Corrected relaxation: costs only go down, and only for unsettled neighbours. A lowered cost is the cost through `u`, with `u` recorded as predecessor, and no neighbour stays above the cost through `u`. |
| LeastCostCorrected.WalkBound | server_new.py:79 | Every walk from `start` to the cheapest key costs at least that key's tentative cost. |
| LeastCostCorrected.CheapestKey | server_new.py:79 | The cheapest unsettled vertex has a finite cost that no walk from `start` undercuts. |
| LeastCostCorrected.InitialLoopInv | server_new.py:49-53 | The initial costs (zero for `start`, infinite elsewhere) satisfy the loop invariant. |
| LeastCostCorrected.SettleStep | server_new.py:69-79 | Settling the cheapest key shrinks the keys, keeps the predecessor tree, and makes that vertex's cost final. |
| LeastCostCorrected.RelaxStep | server_new.py:60-67 | Relaxing the edges out of the vertex just settled restores the loop invariant. |
| LeastCostCorrected.Rebuild | server_new.py:91-101 | Following predecessors back from `dest` gives a walk from `start` to `dest` whose cost is the settled cost of `dest`. |
| LeastCostCorrected.Settle | server_new.py:57-79 | The main loop ends with `dest` settled and with every settled cost final, along a predecessor tree. |
| LeastCostCorrected.LeastCostPath | server_new.py:16-104 | A path is returned exactly when `dest` is reachable, and None otherwise. Equal ends give `[start]`. The path is a walk from `start` to `dest` along edges, and no walk between them costs less. |

## Left out

- `load_data` and its loading from a file, `network.py`, `server2.py`, and the floating-point distance of `cost.py` are not part of this model. Costs are natural numbers from a function parameter, and coordinates are exact reals.
- The script lines of `server_new.py` (5-13 and 107) are left out because they read from the console and call `load_data`.
- The `is_walk`, `is_path`, `vertices`, `edges` and `count_components` of `Archive/graph_old3.py` are not modelled; only the graph operations and the two searches are. Its `is_walk` resolves IDs through `is_vertex` and `is_edge`, but its `is_path` tests repetition on the raw keys (line 411), so an ID and the coordinates of the same vertex count as different entries.
- The state a Python object is left in after an exception is not modelled. A raising operation returns only its fault.
- The iteration order of Python sets is not modelled. The vertex sets passed to the constructors are sequences, which fixes one order. Dictionary order is kept as `Graph.order` and as the searches' `order`.
- `Digraph.Graph.order` is ignored by `CoordGraph.Project`, because the searches never read it.
- Running times and the use of `deque` are not modelled.
- LeastCost.LeastCostPath: its contract states that a returned path follows reversed edges and needs an out-neighbour of `dest`. It does not state which path the code returns or that it is cheapest. The arrival pairs behind it are matched against the cost of the vertex popped just before, which need not be the predecessor (second row of "Findings"), so the returned path has no cost guarantee to state.
- CoordGraph.AddId: it is built on the as-written `add_vertex`, so its guarantees are those of `CoordGraph.AddVertex`.
- CoordGraph.Build: it is built on the as-written `add_vertex`, so it can fail with `KeyError`. Its success condition (no re-added vertex with an ID) is sufficient, not necessary, and its contract says nothing about consistency.
- The `Hang` outcome of `LeastCost` stands for a backtracking loop that no longer makes progress. The model stops there rather than looping.

## Findings

| source | as written | input that shows it | evidently intended | confidence | as-written member | corrected member |
|---|---|---|---|---|---|---|
| Archive/graph_old3.py:170-174 | The update branch gives the new ID to the vertex but does not revoke it from another vertex that holds it; the first-assignment branch does. It then pops the old ID from the index, which may already be gone. | `add_vertex((0,0,1))`, `add_vertex((1,1,2))`, `add_vertex((1,1,1))`: both vertices carry ID 1. Then `add_vertex((0,0,3))` pops ID 1, and `add_vertex((1,1,4))` raises `KeyError`. | Revoke the new ID from its previous holder, as the first-assignment branch does, so IDs and coordinates stay one-to-one. | not executed | CoordGraph.StaleIdExample | CoordGraph.AddVertexRevoking |
| server_new.py:83-101 | Arrival pairs are matched against the cost of the vertex popped just before, which need not be the predecessor. Backtracking looks for them among the out-neighbours of the current vertex, so a route along one-way edges is never rebuilt. | The graph 1 -> 2 -> 3 with unit costs, from 1 to 3: 3 is reachable but has no out-neighbour, so the call returns None (it cannot return a path). | Return a cheapest walk from `start` to `dest` whenever `dest` is reachable. | not executed | LeastCost.LeastCostPath | LeastCostCorrected.LeastCostPath |

For the second row, `LeastCost.ChainFacts` shows that on the chain the destination is reachable and has no out-neighbour. The contract of `LeastCost.LeastCostPath` then rules out a path. For the first row, `CoordGraph.AddVertexRevokingAgrees` shows that the corrected `add_vertex` agrees with the source wherever the source keeps the indexes consistent.
