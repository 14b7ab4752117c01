# Shortest paths and graph searches, modelled in Dafny

The repository is a small Python toolkit of classic graph algorithms. This project models
its core:

- **Two graph stores.** `Graph` in src/main.py is an adjacency dictionary of weighted
  entries, with `add_edge`, `vertices` and `edges`. `Graph` in src/graph.py adds a vertex
  count and vertex names, and can save itself to a JSON record and load itself back.
- **Two single-source shortest-path engines.** `dijkstra` uses a binary heap with lazy
  deletion. `bellman_ford` makes at most `n - 1` passes, stops early, and scans once more
  for a negative cycle.
- **`reconstruct_path`**, which follows parent links back from a target.
- **Breadth-first and depth-first search** (src/bfs_dfs.py): visit orders, shortest and
  depth-first paths, level grouping, discovery and finish times, and cycle detection.

How the model is built:

- **Adjacency dictionaries** are `Adjacency.Adj`: the keys in insertion order, plus a map
  from key to its list of `(target, weight)` entries. A key absent from the map has no
  entries, as with `defaultdict(list)`.
- **Distances** are `Distance.Dist`: `Fin(n)` or `Inf`. Adding a weight to `Inf` stays
  `Inf`. `Below` is the strict `<` of the source.
- **The heap** of `dijkstra` is a sequence of `(distance, vertex)` pairs. A pop removes the
  least pair in tuple order, which is the pair `heapq.heappop` returns.
- **Correctness** is stated over walks of stored edges (`Walks.IsWalk`, `Weight`,
  `Reachable`). Each engine ends with a distance map that no edge can relax and whose finite
  values are walk weights. `Walks.Shortest` proves that such a map holds the least walk
  weights. `Walks.ShortestUnique` proves the map is unique, so the two engines agree
  wherever both apply (`Scenarios.CrossCheck`).
- **The searches** are proved with ghost invariants, stated in `BreadthFirst`,
  `DepthFirstInvariant` and `CycleSearch`.

Modules and files:

| module | file |
|---|---|
| Distance | distance.dfy |
| Adjacency | adjacency.dfy |
| MinHeap | heap.dfy |
| Walks | walks.dfy |
| Cycles | cycles.dfy |
| SimpleGraph | simple_graph.dfy |
| DijkstraInvariant | dijkstra_invariant.dfy |
| Dijkstra | dijkstra.dfy |
| BellmanFord | bellman_ford.dfy |
| WeightedGraph | weighted_graph.dfy |
| BreadthFirst | bfs.dfy |
| DepthFirstInvariant | dfs_invariant.dfy |
| DepthFirst | dfs.dfy |
| CycleSearch | cycle_search.dfy |
| Scenarios | scenarios.dfy |

`Scenarios` holds the model's own small examples: a directed four-vertex graph (the
diamond), a negative triangle and a parent map with a cycle. It proves what the engines and
`reconstruct_path` return on them. The demo in src/main.py runs on a random
16-vertex undirected graph with positive weights (src/main.py:104), which is not modelled.

Where the repository's own description and its code differ, the model follows the code:

- **The source's parent entry.** `parent` has a key for exactly the vertices, as the
  comprehension at src/dijkstra.py:10 builds it. The source therefore has a parent entry, and
  that entry is `None`, only when the source is itself a vertex. `dist` always has the source
  at `0`.
- **Reloading a saved graph.** The comment at src/graph.py:86 says the reload avoids
  duplicates in undirected graphs. The condition on line 87 does otherwise:
  - an undirected reload adds every stored entry again through `add_edge`, which doubles it
    (`WeightedGraph.ReloadUndirectedDoubles`);
  - a directed reload drops self-loops (`WeightedGraph.ReloadDirectedDropsSelfLoops`);
  - a directed graph without self-loops comes back exactly as it was
    (`WeightedGraph.ReloadDirectedRestores`).
- **Dijkstra on negative weights.** The demo labels Dijkstra as the engine for positive
  weights (src/main.py:129). Its summary table marks negative weights as unsupported
  (src/main.py:163). `dijkstra` itself does not check for them. `Dijkstra.Dijkstra` requires
  no negative weight (see "## Left out").

## Model

| member | source | states |
|---|---|---|
| Dijkstra.Dijkstra | src/dijkstra.py:6-30 | with no negative weight: the keys are the vertices plus the source (`parent` just the vertices); the source is at 0 and has no parent; no edge can be relaxed; every finite distance is a walk weight; unreached vertices have no parent; every reached one except the source has a parent along a tight edge; the parent links are acyclic |
| Dijkstra.Round | src/dijkstra.py:15-28 | popping the least pair either drops a stale pair or settles a new vertex and relaxes it; the loop invariant is kept and the measure falls |
| Dijkstra.RelaxNeighbours | src/dijkstra.py:23-28 | after scanning every entry of the settled vertex, the loop invariant holds with that vertex settled and none of its edges relaxable |
| DijkstraInvariant.InitStep | src/dijkstra.py:9-13 | every vertex at infinity without a parent, the source at 0, and the heap `[(0, source)]` satisfy every part of the invariant |
| DijkstraInvariant.StaleStep | src/dijkstra.py:16-20 | removing a popped pair whose distance exceeds the recorded one keeps the invariant |
| DijkstraInvariant.Settle | src/dijkstra.py:16-20 | the least pair that is not stale carries its vertex's exact distance; that vertex is not yet settled, and the inner-loop invariant starts |
| DijkstraInvariant.RelaxEntry | src/dijkstra.py:24-28 | lowering `dist[v]` to `d + w`, recording `u` as parent and pushing `(d + w, v)` keeps the inner-loop invariant |
| DijkstraInvariant.SkipEntry | src/dijkstra.py:25 | an entry that does not lower its target's distance keeps the inner-loop invariant unchanged |
| DijkstraInvariant.ScanDone | src/dijkstra.py:23-28 | after the last entry of `u`, no edge out of any settled vertex can be relaxed |
| DijkstraInvariant.Finish | src/dijkstra.py:15-30 | with the heap empty, the maps are feasible, witnessed, tight and acyclic |
| MinHeap.MinIndex | src/dijkstra.py:16 | the returned index holds a pair no greater, in tuple order, than any pair of the heap |
| MinHeap.RemoveAt | src/dijkstra.py:16 | the heap after the pop is the old multiset less the popped pair |
| BellmanFord.BellmanFord | src/bellman_ford.py:5-30 | `(None, None)` exactly when a negative-weight cycle is reachable from the source. At most `n - 1` passes are made, and every pass but the last relaxes something. Fewer than `n - 1` passes happen only when the last relaxed nothing, and then distances are found. A found result has the same key, source, feasibility, witness, parent, tightness and acyclicity facts as Dijkstra |
| BellmanFord.Search | src/bellman_ford.py:7-30 | the same contract, for the vertex list and edge list the graph hands over |
| BellmanFord.Pass | src/bellman_ford.py:15-20 | one pass keeps the invariant, only lowers distances and leaves no scanned edge relaxable against the pass's start; `updated` is false exactly when nothing changed |
| BellmanFord.Passes | src/bellman_ford.py:14-22 | after the loop, every walk of at most `n - 1` edges is bounded by the end's distance. The `updated` flags show at most `n - 1` passes, all but the last updating. Fewer passes happen only after a pass that updated nothing, and that stop leaves no edge relaxable. The parent links stay ranked by relaxation stamps |
| BellmanFord.Round | src/bellman_ford.py:14-22 | one pass of the outer loop extends the walk bound by one edge and keeps the invariant and the stamps; a pass that updates nothing leaves a feasible map bounding walks of every length |
| BellmanFord.RelaxStamps | src/bellman_ford.py:17-20 | stamping each relaxed vertex with a fresh clock value keeps every tight parent link running from an older stamp to a newer one |
| BellmanFord.FoundAcyclic | src/bellman_ford.py:25-30 | when the final scan finds nothing relaxable, every parent link is tight, so the stamps rank the parent map and it is acyclic |
| BellmanFord.Start | src/bellman_ford.py:7-10 | the starting maps, every vertex at infinity without a parent and the source at 0, satisfy the invariant and bound every walk of zero edges, with every stamp at 0 |
| BellmanFord.Verdict | src/bellman_ford.py:25-30 | the final scan returns `(None, None)` exactly when a negative-weight cycle is reachable. A feasible map is always returned as found. A found result is the maps themselves, forming a shortest-path tree |
| BellmanFord.FoundTree | src/bellman_ford.py:25-30 | maps that no edge relaxes form a shortest-path tree: feasible, witnessed, tight and acyclic, with the source at 0 and no negative cycle reachable |
| BellmanFord.Scan | src/bellman_ford.py:25-28 | a true answer names an edge that can still be relaxed; a false one means none can |
| BellmanFord.InitStep | src/bellman_ford.py:7-10 | the initial maps satisfy the invariant and bound every walk of zero edges |
| BellmanFord.RelaxStep | src/bellman_ford.py:17-20 | one relaxation keeps the parent links along stored edges and the finite distances as walk weights |
| BellmanFord.ReachStep | src/bellman_ford.py:16-20 | a pass extends the bound from walks of `k` edges to walks of `k + 1` edges |
| BellmanFord.QuietReach | src/bellman_ford.py:21-22 | a pass that changed nothing leaves a feasible map that bounds walks of every length |
| BellmanFord.NegativeWitness | src/bellman_ford.py:25-28 | an edge still relaxable after `n - 1` passes implies a reachable negative-weight cycle |
| BellmanFord.FoundFacts | src/bellman_ford.py:25-30 | when no edge is relaxable, the result is feasible, witnessed and tight, and no negative cycle is reachable |
| Cycles.ShortenOrCycle | src/bellman_ford.py:25-28 | any walk either contains a negative closed walk or can be replaced by a walk no heavier with fewer than `n` edges |
| Walks.InfiniteNeverRelaxes | src/bellman_ford.py:17 | an edge out of a vertex at infinity never relaxes |
| Walks.WalkBound | src/bellman_ford.py:25-30 | under a feasible map, the end of a walk from a finite vertex is finite and at most the start's distance plus the weight |
| Walks.NoNegativeCycle | src/bellman_ford.py:25-30 | a feasible map rules out negative closed walks reachable from a finite vertex |
| Walks.Shortest | src/dijkstra.py:30 | a feasible, witnessed map with the source at 0 is finite exactly at the reachable vertices, and holds the least weight of every walk |
| Walks.ShortestUnique | src/dijkstra.py:30 | two such maps with the same keys are equal |
| SimpleGraph.Graph.constructor | src/main.py:15-17 | a new graph has no entries anywhere and the given direction |
| SimpleGraph.Graph.AddEdge | src/main.py:19-22 | `(v, w)` is appended to `u`'s list, and `(u, w)` to `v`'s list when undirected; nothing else changes |
| SimpleGraph.Graph.Vertices | src/main.py:24-29 | strictly increasing, and holding exactly the keys and the targets |
| SimpleGraph.Graph.Edges | src/main.py:31-36 | each triple occurs as often as its entry in its source's list, so it is listed exactly when it is stored |
| SimpleGraph.Reversed | src/main.py:51 | element `i` of the result is element `n - 1 - i` of the input |
| SimpleGraph.ReconstructPath | src/main.py:43-52 | `[]` for an unknown target. Otherwise, whenever the parent chain from the target ends, the result is a path ending at the target and starting at a vertex without a parent, each step a parent link |
| SimpleGraph.RankedChainEnds | src/main.py:48-50 | under a ranking lowered by every link, the loop `cur = parent.get(cur)` from `v` reaches `None` within `rank[v] + 2` steps and stays there |
| SimpleGraph.AcyclicChainEnds | src/main.py:48-50 | in an acyclic parent map the chain from every target ends, so the maps both engines return can be followed |
| Adjacency.Append | src/main.py:20 | one entry is added at the end of one list; the key joins the key order if it was new |
| Adjacency.AddEdge | src/main.py:19-22 | the lists after `add_edge`: `u` gets `(v, w)`, then `v` gets `(u, w)` when undirected |
| Adjacency.Row | src/main.py:34-35 | one list becomes the triples from its owner, in order |
| Adjacency.EdgeListCount | src/main.py:31-36 | the edge list holds each triple as often as the owner's list holds its entry, and is as long as all lists together |
| Adjacency.EdgeListHas | src/main.py:31-36 | a triple is in the edge list exactly when it is stored |
| Adjacency.AddEdgeCount | src/main.py:19-22 | `add_edge` adds one occurrence of `(u, v, w)` and, when undirected, one of `(v, u, w)`; every other triple keeps its count |
| Adjacency.AddEdgeEntries | src/main.py:19-22 | the per-vertex entry counts after `add_edge` |
| Adjacency.InsertSorted | src/main.py:29 | inserting into an increasing list keeps it increasing, with the element added |
| Adjacency.SortedDistinct | src/main.py:25-29 | the sorted set of a list is increasing and has exactly the list's elements |
| Adjacency.TargetsAre | src/main.py:26-28 | the target set holds exactly the vertices some entry points to |
| WeightedGraph.Graph.constructor | src/graph.py:9-13 | no entries; the names map each `i` in `0 .. vertices - 1` to its decimal string, and nothing else |
| WeightedGraph.Graph.AddEdge | src/graph.py:15-21 | the lists after `add_edge`, with the reverse entry when undirected; names unchanged |
| WeightedGraph.Graph.SetVertexName | src/graph.py:23-26 | the name changes only for a vertex in range; the edges never change |
| WeightedGraph.Graph.GetNeighbors | src/graph.py:28-30 | empty exactly for a vertex without a list; otherwise holds exactly its stored entries |
| WeightedGraph.Graph.GetAllVertices | src/graph.py:32-34 | `0, 1, .., vertices - 1`, empty for a non-positive count |
| WeightedGraph.Graph.Save | src/graph.py:56-69 | the record keeps the count, direction and names, and lists each triple as often as it is stored |
| WeightedGraph.Graph.Load | src/graph.py:82-90 | the loaded graph has the record's count, direction and names; its lists are the record's edges replayed through the filter and `add_edge` |
| WeightedGraph.Graph.AddRecords | src/graph.py:85-88 | the loop replays the records onto the current lists |
| WeightedGraph.ReloadDirectedRestores | src/graph.py:56-88 | saving a directed graph with no self-loop and loading it back gives the same lists in the same order |
| WeightedGraph.ReloadDirectedDropsSelfLoops | src/graph.py:56-88 | a directed reload keeps every entry except self-loops, which vanish |
| WeightedGraph.ReloadUndirectedDoubles | src/graph.py:56-88 | an undirected reload doubles the count of every entry |
| WeightedGraph.ReplayDirectedCount | src/graph.py:85-88 | a directed replay adds each non-loop record once |
| WeightedGraph.ReplayUndirectedCount | src/graph.py:85-88 | an undirected replay adds each record in both directions |
| WeightedGraph.SymmetricAddEdge | src/graph.py:19-21 | undirected `add_edge` keeps the lists symmetric |
| WeightedGraph.LoadRecordOccurrences | src/graph.py:87-88 | loading one record changes no count of an unrelated entry |
| WeightedGraph.DecimalString | src/graph.py:13 | `str(i)`: non-empty decimal digits, without a leading zero |
| BreadthFirst.BFS.constructor | src/bfs_dfs.py:7-12 | a new search has empty state on the given graph |
| BreadthFirst.BFS.Search | src/bfs_dfs.py:14-37 | the search leaves a breadth-first tree from `start` and returns its visit order |
| BreadthFirst.BFS.Explore | src/bfs_dfs.py:15-35 | the queue loop ends in a breadth-first tree: the order starts at `start`, repeats nothing, holds exactly the visited vertices and never falls in level; every entry of a visited vertex leads to a visited vertex at most one level further |
| BreadthFirst.SearchIsComplete | src/bfs_dfs.py:14-37 | in such a tree, visited exactly when reachable; each level is the length of some walk and no walk is shorter |
| BreadthFirst.TreePath | src/bfs_dfs.py:33-34 | the parent chain of a visited vertex is a walk from the start, as long as its level |
| BreadthFirst.WalkVisited | src/bfs_dfs.py:29-35 | every walk from the start ends at a visited vertex whose level is at most the walk's length |
| BreadthFirst.BFS.FindShortestPath | src/bfs_dfs.py:39-54 | found exactly when `end` is visited, exactly when it is reachable; `[]` if not; otherwise the parent chain from `start` to `end`, one level per step, along stored edges and no longer than any walk |
| BreadthFirst.PathTo | src/bfs_dfs.py:46-53 | following parents from `end` and reversing gives the chain from the start, one level per vertex |
| BreadthFirst.BFS.GetLevelOrder | src/bfs_dfs.py:56-66 | levels in strictly ascending order, each non-empty and holding exactly the visited vertices of that level in visit order; every visited vertex's level appears |
| BreadthFirst.GroupByLevel | src/bfs_dfs.py:60-66 | the grouping and sort of a visit order by level, with the same guarantees |
| BreadthFirst.BuildLevels | src/bfs_dfs.py:60-64 | the loop builds the level map of the visit order, with its keys |
| BreadthFirst.GroupAtLevel | src/bfs_dfs.py:60-64 | a level is a key of the map exactly when some vertex has it, and maps to those vertices in order |
| BreadthFirst.AtLevel | src/bfs_dfs.py:62-64 | the vertices of a level are exactly those of the order at that level |
| BreadthFirst.InitStep | src/bfs_dfs.py:15-21 | the start alone, visited at level 0 without parent and queued, satisfies the outer invariant |
| BreadthFirst.PopStep | src/bfs_dfs.py:25-26 | dequeuing the head and recording it starts the inner invariant |
| BreadthFirst.VisitStep | src/bfs_dfs.py:30-35 | marking an unvisited neighbour with its parent and the next level, and enqueuing it, keeps the inner invariant |
| BreadthFirst.SkipStep | src/bfs_dfs.py:30 | an already visited neighbour keeps the inner invariant |
| BreadthFirst.DoneStep | src/bfs_dfs.py:29-35 | after the last entry the outer invariant holds again |
| BreadthFirst.FinishStep | src/bfs_dfs.py:23 | an empty queue leaves a breadth-first tree |
| DepthFirst.DFS.constructor | src/bfs_dfs.py:88-95 | a new search has empty state and the clock at 0 |
| DepthFirst.DFS.Search | src/bfs_dfs.py:97-107 | the search from a fresh state leaves a finished depth-first search from `start` and returns its order |
| DepthFirst.Visit | src/bfs_dfs.py:109-125 | `_dfs_recursive` keeps the search invariant, and leaves `vertex` visited and finished |
| DepthFirst.Discover | src/bfs_dfs.py:111-114 | marking, recording and stamping `vertex` pushes it on the open stack and adds it to the visited set |
| DepthFirst.Explore | src/bfs_dfs.py:117-121 | the neighbour loop leaves every entry of `vertex` visited |
| DepthFirst.Descend | src/bfs_dfs.py:118-121 | setting the parent and recursing leaves the neighbour visited |
| DepthFirst.Finish | src/bfs_dfs.py:124-125 | stamping the finish time pops `vertex` from the open stack |
| DepthFirstInvariant.FinishedStamps | src/bfs_dfs.py:97-125 | after a search: the order starts at `start` and has no repeats; the clock is twice the number visited; `1 <= discovery < finish <= clock`; a parent is discovered before and finishes after its child; every visited vertex but the start has a parent |
| DepthFirstInvariant.SearchReaches | src/bfs_dfs.py:97-125 | visited exactly when reachable from `start` |
| DepthFirstInvariant.ParentsReach | src/bfs_dfs.py:119 | the parent links of visited vertices lead back to the root |
| DepthFirstInvariant.DiscoverStep | src/bfs_dfs.py:111-114 | discovery keeps the time stamps and the parent links consistent |
| DepthFirstInvariant.PendStep | src/bfs_dfs.py:118-119 | recording a parent for an unvisited neighbour readies it for entry |
| DepthFirstInvariant.FinishStep | src/bfs_dfs.py:124-125 | finishing keeps the stamps, with the finish after every discovery inside it |
| DepthFirst.DFS.SearchIterative | src/bfs_dfs.py:127-148 | the stack search visits exactly the reachable vertices, each once in the order, with parent links along stored edges; the stamps are untouched |
| DepthFirst.IterativeSearch | src/bfs_dfs.py:132-148 | the stack loop keeps the pending invariant and ends with every reachable vertex visited |
| DepthFirst.PushNeighbours | src/bfs_dfs.py:141-146 | the reversed neighbour loop marks and pushes every unvisited entry, leaving all entries of the vertex visited |
| DepthFirstInvariant.PendingInit | src/bfs_dfs.py:132-133 | the stack `[start]` with `start` visited satisfies the pending invariant |
| DepthFirstInvariant.PopStep | src/bfs_dfs.py:137-138 | popping the top and recording it keeps the pending invariant |
| DepthFirstInvariant.PushStep | src/bfs_dfs.py:143-146 | marking, linking and pushing a neighbour keeps it |
| DepthFirstInvariant.PendingDone | src/bfs_dfs.py:135 | an empty stack with every popped vertex explored means exactly the reachable vertices were visited |
| DepthFirst.DFS.FindPath | src/bfs_dfs.py:150-167 | found exactly when `end` is visited, exactly when it is reachable; `[]` if not; otherwise a repetition-free path from `start` to `end` along parent links and stored edges |
| DepthFirst.TracePath | src/bfs_dfs.py:157-166 | the parent walk from `end` stops at the root, and reversing it gives a repetition-free path |
| DepthFirst.DFS.DetectCycle | src/bfs_dfs.py:169-192 | true exactly when some vertex reachable from `0 .. vertices - 1` lies on a non-empty closed walk of stored edges |
| CycleSearch.CycleFrom | src/bfs_dfs.py:173-185 | `has_cycle_util`: a reported cycle is real and reachable from the vertex of `0 .. vertices - 1` whose search is running. Otherwise `vertex` and everything it reached are left with ranks that fall along every edge, and the recursion stack is restored |
| CycleSearch.CycleNeighbours | src/bfs_dfs.py:177-182 | the neighbour loop reports a real cycle reachable from that vertex, or leaves every entry of `vertex` ranked |
| CycleSearch.CycleAt | src/bfs_dfs.py:181-182 | an edge into a vertex on the recursion stack closes a walk, which the searched vertex of the range reaches |
| CycleSearch.RankFalls | src/bfs_dfs.py:184-185 | along a walk from a ranked vertex the rank falls strictly, so no closed walk passes through it |
| CycleSearch.NoCycleFrom | src/bfs_dfs.py:187-192 | with every visited vertex ranked, no walk from it reaches a non-empty closed walk |
| CycleSearch.UndirectedEdgeDetected | src/bfs_dfs.py:169-192 | in an undirected graph, one edge from a vertex in range is already a reportable cycle |
| CycleSearch.SelfLoopDetected | src/bfs_dfs.py:181-182 | a self-loop at a vertex in range is a reportable cycle |
| Scenarios.CrossCheck | src/bellman_ford.py:5-30 | without negative weights, Bellman-Ford finds distances, and they equal Dijkstra's |
| Scenarios.NegativeTriangle | src/bellman_ford.py:25-28 | the triangle `0 -> 1 -> 2 -> 0` of weight `-1` is a negative cycle reachable from 0 |
| Scenarios.TriangleReported | src/bellman_ford.py:25-28 | on that triangle, `bellman_ford` returns `(None, None)` |
| Scenarios.DiamondDijkstra | src/dijkstra.py:6-30 | on the model's own directed four-vertex diamond, `dijkstra` from 0 gives the distances `0, 2, 1, 3`, and `reconstruct_path` (src/main.py:43-52) to 3 gives `[0, 2, 1, 3]` |
| Scenarios.DiamondBellmanFord | src/bellman_ford.py:5-30 | on the diamond with one edge made negative, `bellman_ford` finds distances `0, -9, 1, -8` |
| Scenarios.CycleBesideChain | src/main.py:43-52 | `reconstruct_path({1: 2, 2: 1, 3: None}, 3)` returns `[3]`, although that map is not acyclic |
| Scenarios.TwoCycle | src/main.py:48-50 | two vertices that are each other's parent admit no ranking |
| Scenarios.DiamondDistances | src/bellman_ford.py:30 | on the diamond, any feasible and witnessed map with the four vertices and the source at 0 is the expected one |
| Scenarios.DiamondTree | src/dijkstra.py:26-27 | on the diamond, the tight parent map is forced |
| Scenarios.DiamondPath | src/main.py:47-52 | the only parent chain reaching 3 in that map is `[0, 2, 1, 3]` |

## Left out

- Printing and the demo driver are output only and return nothing. That covers `print_distances`, `demo` (src/main.py:55-62, 102-166), `display` (src/graph.py:36-52) and both `display_result` methods (src/bfs_dfs.py:68-84, 194-212).
- `generate_demo_graph` (src/main.py:69-95) draws from a random source, so the demo's graph is not modelled. The graphs of `Scenarios` are the model's own.
- Default arguments are not modelled; every caller passes all arguments. The defaults are `directed=False` (src/main.py:15), `w=1.0` (src/main.py:19), `directed=True` (src/graph.py:9) and `weight=1` (src/graph.py:15).
- JSON files (src/graph.py:71-74, 79-80) are I/O. The saved record is `WeightedGraph.Document` and is passed as a value.
- The conversion of name keys back with `int(k)` (src/graph.py:83) undoes the JSON encoding, which is not modelled, so names travel as an integer-keyed map.
- Floating-point weights and distances are integers here. `math.inf` is `Inf`.
- The `bfs_dfs_simple` module imported by src/main.py:7 is not part of this model.
- The array layout of `heapq` is not modelled. The heap is a sequence, and a pop takes its least pair. A push appends.
- Two Python effects are not modelled:
  - `get_neighbors` and `self.adj[u]` on a `defaultdict` insert an empty list for a missing key. The model reads an empty list without adding the key. That changes the key order used by `edges` and `save_to_json` only by keys with no entries, which contribute no triples.
  - Python's recursion limit on `_dfs_recursive` and `has_cycle_util`.
- The recursive depth-first search threads the visited set, parent map, times and order as one value (`Clock`), and `DFS.Search` assigns them to the fields at the end. For `detect_cycle`, the sets shared by the inner function are threaded as values.
- `bellman_ford`'s pass counter and the `updated` flag of each pass are ghost out-parameters of the model, because the source does not return them.
- Dijkstra.Dijkstra: requires no negative edge weight. The source runs on any weights, but with negative ones it may re-settle vertices, and neither its result nor its termination is then what the model proves.
- SimpleGraph.ReconstructPath: requires the parent chain from a known target to end. Where it does not, the source loops forever and returns nothing. Both engines return acyclic maps (`SimpleGraph.AcyclicChainEnds`).
