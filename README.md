# InterestingWalk tour search, modelled in Dafny

InterestingWalk (the TGraph Unity project) looks for a closed walk on a map. A
map is an undirected graph whose vertices carry an *interest* and whose edges
carry a *weight*, which is their travel time. The walk starts and ends at the
start vertex. Its total weight must stay within a time restriction, and it
should collect as much interest as possible. Each distinct vertex counts once,
and no edge may be used more than twice.

The model covers the sequential branch-and-bound search and what it relies on:

- `graphs.dfy` (module `Graphs`) models the static graph.
  - Vertices are numbered `0..n-1`, and vertex 0 is the start.
  - Each vertex has a list of its conjoined edges.
  - The file also holds `EdgeController.IsConnecting` and the two lookups of
    `VertexExtension`.
  - A well-formed graph has, at every vertex, the list that registering the
    edges in creation order builds, as `EdgeController.Init` does.
- `paths.dfy` (module `Paths`) models `GraphPath` as a class.
  - The class holds the vertex list, the list of used edges, their traversal
    counts, the interest and the time.
  - `Valid(g)` ties the bookkeeping to the walk. The interest is the sum over
    distinct vertices. The time is the sum of the weights of the steps taken.
    The counts are the traversal counts of the step edges, each at most 2.
- `distances.dfy` (module `Distances`) specifies what `Map.FordBellman`
  computes.
  - The specification uses synchronous relaxation rounds, `Bound(k)`, starting
    from the labelling that is 1000000 everywhere and 0 at the start.
  - It proves that, with non-negative weights, every label of `Bound(k)` below
    1000000 is the weight of a walk of at most `k` edges from the start, and
    that the rounds stop changing after |V| - 1 of them.
  - With non-negative weights, it proves that the result is a lower bound for
    every walk, that it is relaxed for every edge, and that it lies in
    `[0, 1000000]`. It also proves the same lower bound for the walks the
    search builds.
- `maps.dfy` (module `Maps`) models the `Map` class.
  - The class holds the graph, and per-vertex sequences for the mutable vertex
    fields: `DistanceFromStart`, `Depth`, the visited state, `CurrentBestInterest`
    and `CurrentBestTime`.
  - Its methods are the preprocessing loops (`FordBellman`, `SpreadDepth`,
    `ResetVertices`, `Prepare`), `Clear` and `IsEmpty`, plus vertex and edge
    creation.
- `search.dfy` (module `Search`) models `MapContent`.
  - It holds the pure pruning and acceptance rules.
  - It holds the two mutually recursive phases: `DepthSearch` (outbound) and
    `BackPath` (inbound, with per-vertex memos).
  - It holds `SetBestPath` and the seeding done by `FindPath`.
  - The search keeps these invariants:
    - every walk handed to either phase starts at the start vertex and can
      still get back within the budget;
    - no edge is used more than twice;
    - the best interest never decreases;
    - a non-empty accepted best path starts and ends at the start vertex.
  - The model's termination proof assumes edge weights of at least 1, which is
    what the map generator produces. Each extension then lowers
    `timeRestriction - time`, and a phase rank orders the calls made on the
    same walk. The program itself terminates for any weights, because the
    cycle check stops every edge at two traversals. The assumption exists only
    for the model's measure.

## Model

| member | source | states |
|---|---|---|
| Graphs.IsConnecting | TGraph/Assets/Scripts/EdgeController.cs:53-56 | an edge connects exactly its two endpoints, in either order: true for (first, second) and (second, first), false when either vertex is not an endpoint |
| Graphs.IsConnectingSymmetric | TGraph/Assets/Scripts/EdgeController.cs:53-56 | IsConnecting(a, b) equals IsConnecting(b, a) |
| Graphs.IncidentEdgesMembers | TGraph/Assets/Scripts/EdgeController.cs:40-46 | the list that Init registers at `u` holds exactly the existing edges that have `u` as an endpoint |
| Graphs.FindConnecting | TGraph/Assets/Scripts/VertexExtension.cs:8-12 | List.Find with IsConnecting: a found edge is in the list and joins u and v; nothing is found iff no listed edge joins them |
| Graphs.FindConnectingFirst | TGraph/Assets/Scripts/VertexExtension.cs:11 | the edge found is the first entry of the list that joins u and v |
| Graphs.GetConnectingEdge | TGraph/Assets/Scripts/VertexExtension.cs:8-12 | a found edge is an existing edge in u's list whose endpoints are exactly u and v |
| Graphs.FirstConnecting | TGraph/Assets/Scripts/VertexExtension.cs:8-12 | reference definition: the lowest-numbered edge joining u and v, or none when no edge joins them |
| Graphs.FindIncidentIsFirst | TGraph/Assets/Scripts/EdgeController.cs:45-46 | searching the list built by registering edges in creation order finds the lowest-numbered connecting edge |
| Graphs.ConnectingEdgeIsFirst | TGraph/Assets/Scripts/VertexExtension.cs:8-12 | in a well-formed graph GetConnectingEdge(u, v) is the lowest-numbered edge joining u and v |
| Graphs.ConnectingEdgeSymmetric | TGraph/Assets/Scripts/MapContent.cs:261-266 | looking up the edge from v's list gives the same edge as from u's list, so the weight BackPathNeeded reads at nextV equals the weight Add reads at the current vertex |
| Graphs.GetAdjacentVertices | TGraph/Assets/Scripts/VertexExtension.cs:14-17 | one neighbour per listed edge in list order (same length), each an existing vertex joined to u by that very edge |
| Graphs.AdjacentHasConnectingEdge | TGraph/Assets/Scripts/VertexExtension.cs:11-16 | every neighbour of u has a connecting edge found from either side, and both sides find the same edge |
| Paths.GraphPath.constructor | TGraph/Assets/Scripts/GraphPath.cs:29-34 | the new path has no vertices, edges or counts, and zero interest and time |
| Paths.GraphPath.Copy | TGraph/Assets/Scripts/GraphPath.cs:36-43 | the copy has equal vertices, edges, counts, interest and time; it is a separate object, so Adds on it leave the original unchanged |
| Paths.GraphPath.Add | TGraph/Assets/Scripts/GraphPath.cs:45-70 | appends exactly `v` and returns the same object; on an empty path time stays 0 and no edge is recorded; otherwise time grows by the connecting edge's weight and that edge is counted (appended with count 1 if new, else its count incremented); interest grows by v's interest only on v's first visit; validity (interest = distinct sum, time = weight sum, counts ≤ 2) is preserved; a third use of an edge is excluded by precondition |
| Paths.GraphPath.Contains | TGraph/Assets/Scripts/GraphPath.cs:72-75 | true iff `v` occurs in the vertex sequence |
| Paths.GraphPath.VerticesCount | TGraph/Assets/Scripts/GraphPath.cs:117-120 | the number of vertices on the path |
| Paths.GraphPath.CountInterest | TGraph/Assets/Scripts/GraphPath.cs:80-83 | the distinct-vertex interest sum recomputed from scratch equals the running interest of every valid path |
| Paths.GraphPath.CheckVForCycle | TGraph/Assets/Scripts/GraphPath.cs:102-115 | true iff the path has at least 3 vertices, an edge joins its last vertex to nextV, and that edge has already been traversed twice |
| Paths.GraphPath.CycleGuard | TGraph/Assets/Scripts/GraphPath.cs:102-115 | when CheckVForCycle is false, the step to nextV uses its edge for at most the second time, so Add keeps every count at 2 or less |
| Paths.TallyCounts | TGraph/Assets/Scripts/GraphPath.cs:50-57 | the edge list and count list kept by Add have equal length, hold each used edge exactly once, and each count is that edge's number of traversals |
| Paths.TraversalsBounds | TGraph/Assets/Scripts/GraphPath.cs:110-113 | an edge's traversal count is at most the number of steps, and zero iff the edge was never used |
| Paths.DistinctInterestIsIndicatorSum | TGraph/Assets/Scripts/GraphPath.cs:64-67 | interest added on first visits only equals the sum of interests over the set of visited vertices |
| Distances.Initial | TGraph/Assets/Scripts/Map.cs:54-58 | every label is 1000000 except the start's, which is 0 |
| Distances.RelaxedBounds | TGraph/Assets/Scripts/Map.cs:63-70 | a relaxed label never exceeds the old one or any neighbour's label plus the joining weight, and equals one of these |
| Distances.BoundDecreasing | TGraph/Assets/Scripts/Map.cs:59-72 | each round only lowers labels, and every label stays at most its initial value |
| Distances.WalkWitness | TGraph/Assets/Scripts/Map.cs:59-72 | with non-negative weights, every label below 1000000 after k rounds is the weight of a walk of at most k edges from the start |
| Distances.ShortestIsLowerBound | TGraph/Assets/Scripts/Map.cs:49-72 | with non-negative weights the computed distance of a vertex is at most the weight of every walk from the start to it |
| Distances.BoundStable | TGraph/Assets/Scripts/Map.cs:59-72 | with non-negative weights one more round after |V| - 1 changes nothing |
| Distances.ShortestIsRelaxed | TGraph/Assets/Scripts/Map.cs:49-72 | with non-negative weights no edge can relax further in either direction |
| Distances.ShortestRange | TGraph/Assets/Scripts/Map.cs:54-70 | with non-negative weights the start stays at 0 and every distance lies in [0, 1000000] |
| Distances.SearchWalkIsWalk | TGraph/Assets/Scripts/GraphPath.cs:45-63 | a walk the search builds from the start, with the edges Add looks up as its steps, is a walk in the sense of the distance specification |
| Distances.SearchWalkTime | TGraph/Assets/Scripts/Map.cs:49-72 | with non-negative weights, a search walk's time is at least the computed distance of the vertex it ends at |
| Maps.Map.constructor | TGraph/Assets/Scripts/Map.cs:38-47 | a new map has no vertices or edges and maximum interest -1 |
| Maps.Map.IsEmpty | TGraph/Assets/Scripts/Map.cs:75-78 | true iff there are no vertices |
| Maps.Map.StartVertex | TGraph/Assets/Scripts/Map.cs:36 | the start vertex is vertex 0, an existing vertex |
| Maps.Map.Clear | TGraph/Assets/Scripts/Map.cs:197-202 | vertex and edge lists emptied, maximum interest -1 |
| Maps.Map.AddVertex | TGraph/Assets/Scripts/Map.cs:144-150 | appends one vertex with the given interest and an empty edge list, unvisited, with distance, depth and memos 0; every other vertex, the edges and the maximum interest unchanged |
| Maps.Map.AddEdge | TGraph/Assets/Scripts/EdgeController.cs:38-51 | appends the edge (first, second, weight) and registers it at the end of the first endpoint's list, then of the second's; the graph stays well-formed |
| Maps.Map.InitDistances | TGraph/Assets/Scripts/Map.cs:54-58 | every distance set to 1000000, then the start's to 0 |
| Maps.Map.RelaxPass | TGraph/Assets/Scripts/Map.cs:61-71 | one in-place pass only lowers distances, leaves every edge relaxed with respect to the pass's starting labels, and stays above any labelling no edge can lower |
| Maps.Map.FordBellman | TGraph/Assets/Scripts/Map.cs:52-73 | the in-place passes end at or below |V| synchronous rounds; with non-negative weights the result is exactly the shortest distances from the start |
| Maps.SpreadReaches | TGraph/Assets/Scripts/Map.cs:168-183 | after SpreadDepth every vertex reachable from its argument through vertices unvisited beforehand is visited |
| Maps.Map.SpreadDepth | TGraph/Assets/Scripts/Map.cs:168-183 | sets the start's depth to 0, never raises a depth, leaves every neighbour of the argument at most one deeper than it, marks the argument visited and keeps visited vertices visited |
| Maps.Map.VisitNeighbour | TGraph/Assets/Scripts/Map.cs:174-181 | lowers the neighbour's depth to at most the current depth plus one, and the neighbour ends visited |
| Maps.Map.ResetVertices | TGraph/Assets/Scripts/Map.cs:188-195 | every memo interest and memo time becomes 0; nothing else is modified |
| Maps.Map.ResetStates | TGraph/Assets/Scripts/Map.cs:240-243 | every vertex becomes unvisited, the rest of the map unchanged; Prepare ends with all vertices unvisited through it |
| Maps.Map.Prepare | TGraph/Assets/Scripts/Map.cs:96-106 | shortest distances as FordBellman; depths start at |V| and end within [0, |V|] with the start at 0; maximum interest is the sum of all interests; all vertices unvisited afterwards |
| Search.CheckBranchForRedundancy | TGraph/Assets/Scripts/MapContent.cs:268-274 | never prunes when the memo time is 0 or less; otherwise prunes iff the memo interest is greater, or equal with a smaller memo time |
| Search.RedundancyIrreflexive | TGraph/Assets/Scripts/MapContent.cs:268-274 | a walk with the same interest and time as the memo is not pruned |
| Search.RedundancyTransitive | TGraph/Assets/Scripts/MapContent.cs:268-274 | pruning is transitive between memos with positive time |
| Search.InterestAtMostMax | TGraph/Assets/Scripts/MapContent.cs:180 | with non-negative interests a valid path's interest lies between 0 and the map's maximum interest |
| Search.MapContent.constructor | TGraph/Assets/Scripts/MapContent.cs:47-58 | a new search over an empty map with the given time restriction, an empty best path and best interest 0 |
| Search.MapContent.SetBestPath | TGraph/Assets/Scripts/MapContent.cs:175-185 | the best path becomes `newPath` and the best interest its interest; reaching the maximum interest cancels the search and zeroes the iteration counter |
| Search.MapContent.BetterKeepsInterest | TGraph/Assets/Scripts/MapContent.cs:276-281 | a path accepted by IsPathBetter never has less interest than the current best |
| Search.MapContent.IsPathBetter | TGraph/Assets/Scripts/MapContent.cs:276-281 | the program's replacement rule: any walk while the best has interest 0, else one with more interest, or as much in less time; its meaning is stated by BetterKeepsInterest (never lowers the best interest), AcceptAtStart and BackPath (replacement happens iff it holds) |
| Search.MapContent.BackPathNeeded | TGraph/Assets/Scripts/MapContent.cs:261-266 | the program's rejection rule: the budget test with the weight read at the neighbour's side, or the cycle check; its meaning is stated by AcceptedStep (a neighbour it does not reject can be extended to within budget with an edge used at most once) and DepthStep (rejection iff it holds, and then nothing changes) |
| Search.MapContent.Admissible | TGraph/Assets/Scripts/MapContent.cs:430-432 | BackPath's filter: no cycle closed and the budget test passed, with the weight read at the current vertex's side; BackStep states that a neighbour failing it changes nothing |
| Search.MapContent.AllNeighboursUsed | TGraph/Assets/Scripts/MapContent.cs:256-259 | true iff every neighbour of the vertex is already on the path |
| Search.MapContent.AcceptedStep | TGraph/Assets/Scripts/MapContent.cs:388-393 | a neighbour for which BackPathNeeded is false is joined by the walk's next edge, that edge has been used at most once, and the extended walk can still return within the budget |
| Search.MapContent.Extend | TGraph/Assets/Scripts/MapContent.cs:393 | a fresh copy extended by nextV, with time grown by the edge's weight (strictly) and still within the budget; the original is untouched |
| Search.MapContent.Memorize | TGraph/Assets/Scripts/MapContent.cs:410-411 | the vertex's memo becomes the walk's interest and time, other memos unchanged |
| Search.MapContent.AcceptAtStart | TGraph/Assets/Scripts/MapContent.cs:416-427 | counts one more closed walk; replaces the best path iff IsPathBetter held, else leaves it; the best interest never decreases and the best path starts and ends at the start |
| Search.MapContent.BackPath | TGraph/Assets/Scripts/MapContent.cs:401-437 | a pruned walk changes no memo, best path or counter; an unpruned walk at the start leaves the start's memo equal to its interest and time, counts one more iteration (zeroed instead when a better walk reaches the maximum interest), and becomes the best path iff IsPathBetter held, the best path and interest staying as they were otherwise; in every case the best interest never decreases and the best path stays a closed walk from the start |
| Search.MapContent.BackStep | TGraph/Assets/Scripts/MapContent.cs:430-435 | a neighbour that fails the cycle filter or the budget test changes nothing; the search invariants are kept in every case |
| Search.MapContent.DepthSearch | TGraph/Assets/Scripts/MapContent.cs:377-399 | keeps the search invariants: the best interest never decreases and the best path stays a closed walk from the start |
| Search.MapContent.DepthStep | TGraph/Assets/Scripts/MapContent.cs:386-393 | reports a neighbour as rejected iff BackPathNeeded holds for it, and then changes nothing; otherwise searches onward from the extended walk |
| Search.MapContent.FindPath | TGraph/Assets/Scripts/MapContent.cs:231-254 | resets the best path and memos, seeds the walk [start] and searches; the final best path is a closed walk from the start (or empty), its interest lies in [0, maximum interest], and the iteration counter is zeroed when the run ends |
| Search.MapContent.Clear | TGraph/Assets/Scripts/MapContent.cs:84-90 | empty best path, best interest 0, empty map with maximum interest -1 |

## Left out

- Parallel search: `ParallelDepthSearch`, `ParallelBackPath`, the thread pool, locks, state tokens and the wait loop in `FindPath` are concurrency plumbing. Their search logic duplicates the sequential phases, which are modelled. `ClearThreads` is reduced to setting one `cancelled` flag.
- The sequential search never reads the cancellation token, so reaching the maximum interest stops nothing in sequential mode. The model follows that: `cancelled` is written by `SetBestPath` and read by no search method.
- Stopwatch, timer and `Debug.Log` output are wall-clock and console I/O. Of `StopTimerAndOutputResult`, only the zeroing of `iterations` is kept. It happens where the program calls it: in `FindPath` before the search, in `SetBestPath` at the maximum interest, and when the run's last thread finishes, which the model places at the end of `FindPath`.
- Rendering (`ColorGraph`, `PrintBestPathIfNeeded`, `updatedPathColoring`, colours and transforms) and `GetAllPathVertices` serve only display code. No caller of `GraphPath.Contains(List)` appears in the program.
- `SpreadMeasure`/`HeuristicMeasure` use floating point, and the search never reads their result. Only their resetting of the vertex states to unvisited is modelled, in `Prepare`.
- Random generation (`Randomize*`, `CreateVertex`/`CreateEdge`) and JSON import/export are left out. `Map.AddVertex` and `Map.AddEdge` model only the list effects of vertex and edge creation. The random weight range 1..6 becomes the `Ready` requirement that every weight is at least 1.
- VertexState.cs is not part of this model. The visited state is a boolean, and new vertices are assumed unvisited.
- Integer overflow of C# `int` is not modelled. Times, interests and distances are unbounded integers.
- `MapContent.map` has a setter in the program. The model fixes the map for the life of the search object.
- Search.MapContent.DepthSearch: the contract does not state that `BackPath` is called iff some neighbour was rejected. `DepthStep` reports each rejection exactly, and the method body calls `BackPath` on that flag. A flag invariant across the loop was too costly to frame over the recursive calls.
- Search.MapContent.BackPath: beyond the start vertex, the contract does not say which walks reach the recursive calls. `BackStep` states that a neighbour failing the cycle filter or the budget test changes nothing.
- Search.MapContent.FindPath: the seed walk [start] is accepted even when the time restriction is negative, because the program does not test it. The budget invariant is therefore "time plus distance home within the budget, or the walk is [start]".
- Maps.Map.SpreadDepth: it requires non-negative depths on entry, which `Prepare` provides. It does not state the exact depth values, only bounds.
- Maps.Map.FordBellman: the in-place passes (each relaxation sees the labels already lowered in the same pass) are proved against synchronous rounds. With negative weights only the upper bound is stated.
- Paths.GraphPath.Add: a third use of an edge reaches `Debug.Assert(false)` in the program. Where execution goes on, the edge's count becomes 3. The model makes a count of at most 2 before the step a precondition.
- Paths.GraphPath.Add: it requires an edge joining the last vertex to the new one. Without such an edge, the program dereferences a null edge when it adds the weight.
- Search.MapContent.BackPathNeeded: it requires an edge joining the two vertices, found from the neighbour's side. Without such an edge, the program dereferences a null edge. Neighbours always have one (`AdjacentHasConnectingEdge`).
- Maps.Map.Prepare, Maps.Map.InitDistances and Maps.Map.StartVertex: they require a non-empty map. On an empty map, the program indexes the first vertex of an empty list and throws.
- Search.MapContent.FindPath: the search requires `Ready`. It is an assumption the program does not check, and it holds for every map the generator builds. It requires the following:
  - interests are non-negative; generated interests are 1..9 and the start's is 0;
  - weights are at least 1; generated weights are 1..6;
  - distances are non-negative;
  - the maximum interest is the interest sum, as `Prepare` sets it.

  "The best interest never decreases" needs non-negative interests. While the best interest is 0, IsPathBetter accepts any walk, including one with negative interest.
