# Graph algorithms of `grafosalgoritmos_2025`, modelled in Dafny

This project models the algorithmic cores of four labs of a graph-algorithms
course. It proves what they compute.

- **LAB_04, min-cost max-flow.** The residual graph `Grafo` keeps paired
  forward and backward arcs. `FluxoCustoMinimo::executar` runs Dijkstra with
  potentials, raises the potentials, finds the bottleneck capacity and
  pushes flow until the sink is unreachable. `obter_corte_minimo` returns the
  source side of the final residual graph. `main` builds the graph from a
  list of arcs and runs both from vertex 0 to vertex `n - 1`. The module
  `FlowCut` connects the two results. The flow value equals the capacity of
  the input arcs leaving the cut, and no flow of those arcs is worth more.
- **LAB_02, weighted digraphs.** `bellmanFord` computes single-source bounds.
  `hasNegativeCycle` detects a negative cycle and reads it off the parent
  pointers. `allPairsShortestPaths` is Johnson's algorithm: a super vertex,
  Bellman–Ford potentials, a rejection test, one reweighted Dijkstra per
  source and the weights restored.
- **LAB_01, undirected graphs.** These are adjacency lists with both
  directions of each edge. The model covers the DFS connectivity test,
  Tarjan's articulation points (`findArticulationPoints`, `dfsAP`), the
  test whether removing two vertices disconnects the graph, and the list of
  such pairs. From these it derives the vertex connectivity 0, 1, 2 or "at
  least 3".
- **LAB_03, sliding puzzles.** `GraphNode` holds a board, its blank and its
  string id. It provides the goal board, the solvability parity rule and
  the Manhattan, linear-conflict and composite heuristics. `PuzzleGraph`
  stores nodes by id and adjacency lists by source id, and generates a
  node's neighbours by sliding the blank. `Puzzle` is a board with path
  cost, estimate and the space-separated list of moves, as used by the A*
  search.

Notes on the modelling:

- The C++ sentinels `INT_MAX` and `INT_MAX / 2` are the constructor `Inf` of
  `Dist.Dist`.
- Integers are unbounded (see "Left out").
- Mutable vectors are modelled as sequences threaded through methods.
- Graph reachability is stated with explicit walks, as `Reach` and
  `ConnectedWithout` on undirected graphs and `EdgeWalk` and `WalkWeight` on
  weighted edge lists.
- Puzzle boards are `seq<seq<int>>`.
- Node ids are built by `NodeId.IdOf`, which is shown injective.

## Model

| member | source | states |
|---|---|---|
| ResidualGraph.NewGraph | LAB_04/src/Grafo.cpp:6 | `n` vertices, every adjacency list empty |
| ResidualGraph.AddEdge | LAB_04/src/Grafo.cpp:9-20 | the forward arc (capacity, cost, no flow, index of its partner) ends `from`'s list; the backward arc (capacity 0, negated cost) ends `to`'s list; a self-loop adds two entries to one list; every existing arc and every other list is unchanged |
| ResidualGraph.AddEdgePairs | LAB_04/src/Grafo.cpp:12-19 | for `from != to`, each new arc's `rev` index points at the other new arc |
| ResidualGraph.AddSelfLoopPointsToItself | LAB_04/src/Grafo.cpp:12-19 | for a self-loop, both new arcs' `rev` point at the forward arc, so the forward arc is its own partner |
| ResidualGraph.AddEdgeKeepsInvariant | LAB_04/src/Grafo.cpp:9-20 | adding an arc of non-negative capacity keeps the pairing/capacity invariant `WellFormed`, and keeps zero flow |
| ResidualGraph.Build | LAB_04/src/main.cpp:30-41 | the graph made from `n` and the arc list has `n` vertices |
| ResidualGraph.BuildWellFormed | LAB_04/src/main.cpp:30-41 | the graph built from arcs of non-negative capacity is well formed and carries no flow |
| ResidualGraph.WellFormedHeads | LAB_04/src/Grafo.cpp:12-16 | in a well-formed graph every arc's head is a vertex |
| Dist.Plus | LAB_04/src/FluxMaxCustoMin.cpp:88-90 | adding a weight keeps `Inf` infinite and shifts a finite distance by exactly the weight |
| Dist.Min | LAB_04/src/FluxMaxCustoMin.cpp:34-38 | the minimum is one of its arguments and neither argument is below it |
| Dist.LessIsStrictOrder | LAB_04/src/FluxMaxCustoMin.cpp:88 | the order with `Inf` on top is irreflexive, asymmetric, transitive and total |
| PotentialSearch.Search | LAB_04/src/FluxMaxCustoMin.cpp:57-100 | when reduced costs are non-negative on residual arcs leaving a set containing the source, the labels form a shortest-path tree in reduced costs. The source has label 0 and no parent. Every other labelled vertex has a parent arc that is residual, ends at it, and accounts exactly for its label, with ranks falling towards the source. Every residual arc out of a labelled vertex reaches a labelled vertex whose label is at most the tail's label plus the arc's reduced cost. `found` holds exactly when the sink got a finite label |
| PotentialSearch.ScanEdges | LAB_04/src/FluxMaxCustoMin.cpp:80-95 | scanning a popped vertex's list relaxes every residual arc leaving it and keeps the queue/label invariant |
| PotentialSearch.FinishSearch | LAB_04/src/FluxMaxCustoMin.cpp:69-99 | once the queue is empty and every settled vertex is relaxed, the labels form a shortest-path tree |
| PotentialSearch.MinExists | LAB_04/src/FluxMaxCustoMin.cpp:71-72 | a non-empty priority queue has a least entry to pop |
| Augment.TreeParents | LAB_04/src/FluxMaxCustoMin.cpp:35 | the parent pointers of a shortest-path tree lead from every reached vertex back to the source along residual arcs |
| Augment.PathBottleneckBounds | LAB_04/src/FluxMaxCustoMin.cpp:34-38 | the bottleneck is infinite only at the source, positive elsewhere, and at most the residual capacity of the last arc and of every arc before it |
| Augment.Bottleneck | LAB_04/src/FluxMaxCustoMin.cpp:34-38 | the loop from the sink back to the source computes the path's bottleneck |
| Augment.Push | LAB_04/src/FluxMaxCustoMin.cpp:41-46 | pushing `b` along the path keeps the graph well formed and feasible for the new potentials, adds `b` to the source's net outflow and removes it from the sink's, and raises the total cost by `2·b·(π[t] − π[s])`. Arc by arc: each tree arc on the path from the source to the sink gains `b`, each partner of such an arc loses `b`, and every other arc is unchanged. A balanced graph stays balanced |
| Augment.OnPathRank | LAB_04/src/FluxMaxCustoMin.cpp:41 | a vertex on the parent path to `v` is reached, is not the source, and has rank at most `v`'s |
| Augment.PathEdgeFresh | LAB_04/src/FluxMaxCustoMin.cpp:41-46 | the walk never meets the same tree arc twice: the arc into `v` is not on the path to `v`'s parent |
| Augment.PathEdgeStep | LAB_04/src/FluxMaxCustoMin.cpp:41-46 | one more step of the walk adds exactly the tree arc into `v` to the set of path arcs |
| Augment.PathDeltaValue | LAB_04/src/FluxMaxCustoMin.cpp:41-46 | the flow changes the walk makes on one arc sum to `+b` for a path arc and `−b` for a partner of one |
| Augment.PathPartnerDisjoint | LAB_04/src/FluxMaxCustoMin.cpp:41-46 | no arc is both a tree arc of the path and the partner of one, so no arc gets both changes |
| Augment.PushStepFlows | LAB_04/src/FluxMaxCustoMin.cpp:43-45 | one iteration of the walk adds `b` to the tree arc into `v` and takes it from that arc's partner, which keeps the per-arc bookkeeping |
| Augment.FlowsEnd | LAB_04/src/FluxMaxCustoMin.cpp:41-46 | when the walk reaches the source, every arc differs from the start by `+b` on path arcs and `−b` on their partners |
| Augment.FlowWithinCap | LAB_04/src/FluxMaxCustoMin.cpp:37 | when no arc carries more than its capacity, the flow out of a list is at most its capacity |
| MinCostFlow.Advance | LAB_04/src/FluxMaxCustoMin.cpp:25-31 | a reached vertex's potential rises by exactly its distance, and an unreached vertex keeps its potential. AdvanceKeepsFeasible states what this buys |
| MinCostFlow.AdvanceKeepsFeasible | LAB_04/src/FluxMaxCustoMin.cpp:23-31 | adding the finite distances to the potentials keeps reduced costs non-negative on the reached set, makes the tree arcs tight, and leaves the source's potential unchanged |
| MinCostFlow.StartFeasible | LAB_04/src/FluxMaxCustoMin.cpp:17-18 | with zero potentials and non-negative costs on residual arcs, every vertex is feasible |
| MinCostFlow.RoundKeeps | LAB_04/src/FluxMaxCustoMin.cpp:40-50 | one augmentation keeps the flow invariant with `maxflow + b` and `mincost + b·π[t]`, and strictly lowers the source's remaining room |
| MinCostFlow.MissedSinkCut | LAB_04/src/FluxMaxCustoMin.cpp:98-99 | when the sink is not reached, the reached set contains the source, not the sink, and no residual arc leaves it |
| MinCostFlow.Execute | LAB_04/src/FluxMaxCustoMin.cpp:13-54 | the result keeps the graph well formed and its arcs fixed; `maxflow` is the source's net outflow; every other vertex except the sink is balanced; the sink absorbs `maxflow`; twice `mincost` is the total cost of the flow; inside every vertex set the flows cancel; at the end a residual cut separates source from sink; with source = sink nothing is sent |
| MinCostFlow.Round | LAB_04/src/FluxMaxCustoMin.cpp:23-50 | a round after a search that reached the sink keeps the flow invariant and the potentials feasible, strictly increases `maxflow` and strictly shrinks the source's remaining room, so the loop ends |
| MinCostFlow.SourceAsSinkNeverStops | LAB_04/src/FluxMaxCustoMin.cpp:21-38 | with source = sink the search always reports the sink reached (distance 0), and the bottleneck of the empty path is infinite, so the C++ loop never ends |
| MinCostFlow.Members | LAB_04/src/FluxMaxCustoMin.cpp:131 | the visited vertices listed in strictly ascending order, exactly those marked |
| MinCostFlow.VisitEdges | LAB_04/src/FluxMaxCustoMin.cpp:119-127 | every residual neighbour of the dequeued vertex ends up visited, and nothing visited is forgotten |
| MinCostFlow.VisitEdge | LAB_04/src/FluxMaxCustoMin.cpp:120-126 | the head of a residual edge ends up visited and queued in discovery order; a visit either marks a new vertex or leaves the queue as it was |
| MinCostFlow.MinCut | LAB_04/src/FluxMaxCustoMin.cpp:103-133 | the result is ascending, holds the source, is closed under residual arcs, and is contained in every residual-closed set that holds the source: it is exactly the vertices reachable in the residual graph |
| MinCostFlow.BuildNonNegative | LAB_04/src/main.cpp:35-41 | if every arc with positive capacity has non-negative cost, every residual arc of the built graph has non-negative cost |
| MinCostFlow.Solve | LAB_04/src/main.cpp:27-61 | from vertex 0 to vertex `n − 1`. The result keeps the arcs and is well formed. `maxflow` is vertex 0's net outflow. Every vertex strictly between 0 and `n − 1` is balanced, and for `n > 1` the sink absorbs `maxflow`. Twice `mincost` is the total cost. The cut is ascending and holds 0. It is residual-closed and contained in every residual-closed set that holds 0. For `n > 1` it excludes the sink, and `maxflow` equals the capacity of the input arcs leaving the cut. No set holding 0 and not `n − 1` has a smaller capacity, so the cut is a minimum cut. No flow of the input arcs that stays within capacities and is conserved at the inner vertices is worth more than `maxflow` |
| MinCostFlow.MaxFlowMinCut | LAB_04/src/main.cpp:44-65 | at the end the flow value equals the capacity of the input arcs leaving the residual-closed set. That capacity is the least over all sets separating source from sink, and it bounds the value of every flow of the input arcs |
| FlowCut.CutEqualsFlow | LAB_04/src/FluxMaxCustoMin.cpp:103-133 | for a well-formed, balanced flow conserved at the inner vertices: given a residual-closed set with the source and not the sink, the source's net outflow equals the capacity of the edges leaving the set |
| FlowCut.FlowBelowCut | LAB_04/src/FluxMaxCustoMin.cpp:13-54 | for such a flow, the source's net outflow is at most the capacity leaving any set that holds the source and not the sink |
| FlowCut.SetSaturated | LAB_04/src/FluxMaxCustoMin.cpp:122 | every edge leaving a residual-closed set carries exactly its capacity |
| FlowCut.SetSplit | LAB_04/src/FluxMaxCustoMin.cpp:41-46 | the net flow out of a set is the flow inside it plus the flow leaving it |
| FlowCut.SetFlowSource | LAB_04/src/FluxMaxCustoMin.cpp:13-54 | when the other vertices of a set are balanced, the set's net outflow is the source's |
| FlowCut.AddEdgeCutCap | LAB_04/src/Grafo.cpp:9-20 | one `adicionar_aresta` raises a set's cut capacity by the arc's capacity exactly when the arc leaves the set; the reverse edge adds nothing |
| FlowCut.BuildCutCap | LAB_04/src/main.cpp:35-41 | the cut capacity of the built graph is the capacity of the input arcs leaving the set |
| FlowCut.CutCapSameShape | LAB_04/src/FluxMaxCustoMin.cpp:41-46 | changing flows leaves every cut capacity unchanged |
| FlowCut.SetNetCrossing | LAB_04/src/main.cpp:35-41 | summed over a set, the net outflows of an arc flow leave only the arcs crossing its boundary: leaving ones count positive, entering ones negative |
| FlowCut.ArcFlowBelowCut | LAB_04/src/main.cpp:35-44 | weak duality: a flow of the input arcs within capacities, conserved away from source and sink, is worth at most the capacity leaving any set holding the source and not the sink |
| FlowCut.SingleVertexNet | LAB_04/src/main.cpp:44 | on a one-vertex instance every arc is a self-loop and no arc flow leaves the source |
| Augment.ZeroBalanced | LAB_04/src/Grafo.cpp:9-20 | a graph without flow is balanced: inside every vertex set the flows sum to 0 |
| Augment.PushEdgeBalanced | LAB_04/src/FluxMaxCustoMin.cpp:43-45 | adding `b` to an edge that is not a self-loop and taking it from its partner keeps every vertex set's inner flow at 0 |
| WeightedDigraph.NewDigraph | LAB_02/directed-graph.cpp:16-18 | `n` empty adjacency lists and an empty edge list |
| WeightedDigraph.AddEdge | LAB_02/directed-graph.cpp:20-23 | `(target, weight)` ends the source's list, the edge ends the edge list, nothing else changes |
| WeightedDigraph.AddEdgeValid | LAB_02/directed-graph.cpp:20-23 | adding an edge between vertices keeps the lists and the edge list consistent |
| BellmanFord.RelaxStep | LAB_02/directed-graph.cpp:76-78 | looking at edge `j` keeps the pass invariant: every finite entry is the weight of a walk from the source, and walks whose last edge is among the first `j + 1` weigh at least their end's entry |
| BellmanFord.BellmanFord | LAB_02/directed-graph.cpp:68-83 | `n + 1` entries; the source's is finite and at most 0; every finite entry is the weight of a walk from the source; and every walk of at most `n` edges from the source weighs at least the entry of its end |
| NegativeCycle.Pass | LAB_02/directed-graph.cpp:33-40 | one pass over the edge list keeps the relaxation invariant: each entry is the weight of a witness walk, entries bound the walks of up to `i + 1` edges, parent pointers follow edges, `x` is the last vertex lowered, and in the last pass of a graph without negative cycles nothing is lowered and `x` stays -1 |
| NegativeCycle.Relax | LAB_02/directed-graph.cpp:35-38 | the target's entry becomes the smaller of itself and the source's entry plus the weight; its parent and `x` change exactly when the edge shortens it; every other entry is unchanged |
| NegativeCycle.QuietPassPotential | LAB_02/directed-graph.cpp:43-46 | when the last pass lowers nothing, `dist` is a potential: no edge can still lower an entry |
| NegativeCycle.ReadCycle | LAB_02/directed-graph.cpp:48-63 | walking `n` parents back, then around until the start returns, and reversing gives a closed walk along edges, and the parent edges it follows weigh less than zero in total |
| NegativeCycle.StepSlack | LAB_02/directed-graph.cpp:35-38 | a relaxation keeps every vertex's distance equal to its parent's distance at the moment of lowering plus the parent edge, with the parent no heavier since and strictly lighter unless it was lowered before the child |
| NegativeCycle.NegativeChain | LAB_02/directed-graph.cpp:54-63 | a closed parent chain, reversed, runs along parent edges whose weights add up to less than zero: round the chain some parent was lowered after its child, so one edge is strictly slack |
| NegativeCycle.Climb | LAB_02/directed-graph.cpp:49-51 | after `n` parent steps from the last lowered vertex the walk is still on a vertex: every step has a parent |
| NegativeCycle.Detect | LAB_02/directed-graph.cpp:25-66 | `true` exactly when the edges have a closed walk of negative weight; then `cycle` is a closed walk along edges and some choice of one edge per consecutive pair weighs less than zero, otherwise it is untouched |
| Walks.PotentialExcludesNegativeCycle | LAB_02/directed-graph.cpp:139-144 | edges that respect a potential have no negative closed walk |
| Walks.Shorten | LAB_02/directed-graph.cpp:74 | without a negative cycle every walk can be replaced by one with the same ends, fewer than `n` edges and no greater weight |
| Johnson.CopyEdges | LAB_02/directed-graph.cpp:123-128 | the auxiliary graph has one more vertex and the original edges |
| Johnson.AuxGraph | LAB_02/directed-graph.cpp:121-133 | the auxiliary graph: the original edges, then a 0-weight edge from the super vertex `n` to each vertex |
| Johnson.AuxCycleIsOriginal | LAB_02/directed-graph.cpp:121-133 | a negative cycle of the auxiliary graph is one of the original graph |
| Johnson.PotentialsFinite | LAB_02/directed-graph.cpp:136 | every original vertex gets a finite potential at most 0 |
| Johnson.FindViolation | LAB_02/directed-graph.cpp:139-144 | the test returns `true` exactly when some edge has both ends finite and `h[t] > h[s] + w` |
| Johnson.Heights | LAB_02/directed-graph.cpp:136 | the finite potentials read as integers, entry by entry |
| Johnson.RejectExactly | LAB_02/directed-graph.cpp:136-144 | some edge violates the Bellman–Ford potentials exactly when the graph has a negative cycle; otherwise every reweighted edge is non-negative |
| Johnson.ViolationMeansCycle | LAB_02/directed-graph.cpp:139-142 | a violating edge closes a negative cycle with the witness walk |
| Johnson.BoundedUnlessCycle | LAB_02/directed-graph.cpp:68-83 | any walk from the source, of any length, weighs at least the entry of its end, unless the graph has a negative cycle |
| Johnson.Converted | LAB_02/directed-graph.cpp:102-107 | the adjacency lists seen as arcs of unit capacity with the edge weights as costs, index for index |
| Johnson.ConvertedFeasible | LAB_02/directed-graph.cpp:106-107 | with non-negative reweighted edges, the converted graph is feasible for the search with potentials `h` |
| Johnson.Dijkstra | LAB_02/directed-graph.cpp:85-118 | the reweighted distances: no walk from the source is shorter in reweighted weight, and each finite entry is attained by a walk |
| Johnson.Restore | LAB_02/directed-graph.cpp:154-159 | restoring keeps exactly the same entries finite |
| Johnson.RowShortest | LAB_02/directed-graph.cpp:150-160 | the restored row holds, for each target, the original shortest distance, or `Inf` when the target is unreachable |
| Johnson.AllPairsShortestPaths | LAB_02/directed-graph.cpp:120-164 | the empty matrix exactly when there is a negative cycle; otherwise `n` rows, row `u` holding the shortest distance from `u` to every vertex, or `Inf` |
| Johnson.Row | LAB_02/directed-graph.cpp:152-160 | Dijkstra on the reweighted graph with the reweighting undone gives row `u` of shortest distances |
| Johnson.Rows | LAB_02/directed-graph.cpp:150-161 | one shortest row per source, in order |
| UndirectedGraph.NewGraph | LAB_01/graph.cpp:7-9 | `n` empty adjacency lists, with the declared `n` and `m` |
| UndirectedGraph.AddEdge | LAB_01/graph.cpp:12-15 | `v` ends `u`'s list and `u` ends `v`'s list (a loop appears twice in its own list), nothing else changes |
| UndirectedGraph.AddEdgeValid | LAB_01/graph.cpp:12-15 | adding an edge keeps the lists symmetric and in range |
| UndirectedGraph.ReachSymmetric | LAB_01/graph.cpp:12-15 | since both directions are stored, reachability avoiding a set is symmetric |
| VertexSearch.Expand | LAB_01/graph.cpp:34-38 | every unvisited neighbour that is not excluded is marked and scheduled |
| VertexSearch.Visit | LAB_01/graph.cpp:32-39 | after the search from `s`, a vertex is visited exactly when it was excluded beforehand or is reachable from `s` avoiding the excluded vertices |
| Articulation.NotCut | LAB_01/graph.cpp:82-84 | a vertex whose neighbours all reach one hub without it is not an articulation point |
| Articulation.DfsAP | LAB_01/graph.cpp:67-96 | the recursive search discovers exactly the unseen vertices reachable from `u`, gives them discovery times and `low` values, and marks among them exactly the articulation points |
| Articulation.Adopt | LAB_01/graph.cpp:74-84 | after the call on an undiscovered neighbour, taking its `low` and counting it keeps the scan invariant one edge further |
| Articulation.Revisit | LAB_01/graph.cpp:86-89 | an already discovered neighbour lowers `low[u]` through a back edge unless it is the parent, keeping the scan invariant one edge further |
| Articulation.SearchAll | LAB_01/graph.cpp:49-53 | starting a search at every undiscovered vertex discovers all vertices and marks exactly the articulation points |
| Articulation.Root | LAB_01/graph.cpp:50-52 | a search from vertex `i`, when still undiscovered, keeps every discovered vertex finished and correctly marked and discovers `i` |
| Articulation.Collect | LAB_01/graph.cpp:56-63 | the marked indices in ascending order |
| Articulation.FindArticulationPoints | LAB_01/graph.cpp:42-64 | ascending, and a vertex is listed exactly when removing it separates two vertices that were connected |
| Connectivity.IsConnected | LAB_01/graph.cpp:18-29 | true exactly when every two vertices are joined by a walk (so for no vertices) |
| Connectivity.IsCutPair | LAB_01/graph.cpp:160-181 | true exactly when the graph has more than two vertices and removing `u` and `v` leaves two vertices unjoined |
| Connectivity.HasCommonNeighbour | LAB_01/graph.cpp:138-145 | true exactly when the two lists share a vertex |
| Connectivity.TakePair | LAB_01/graph.cpp:109-152 | a pair is kept exactly when it passes the filter of its branch and is a cut pair |
| Connectivity.PairsFrom | LAB_01/graph.cpp:110-115 | the pairs `(i, j)` with `j > i` that are kept, in ascending `j` |
| Connectivity.FindCutVertexPairs | LAB_01/graph.cpp:99-157 | empty unless the graph is connected with no articulation point; then exactly the kept pairs `(i, j)`, `i < j`, in lexicographic order |
| Connectivity.GetConnectivity | LAB_01/graph.cpp:195-208 | 0 exactly for a disconnected graph; 1 exactly for a connected graph with an articulation point; 2 exactly when, beyond that, some kept pair disconnects it; 3 otherwise |
| Board.Decode | LAB_03/src/PuzzleGraph.cpp:11-31 | a board exactly for 9 or 16 cells, filled row by row (`board[i][j] == input[i·k + j]`); its flattening is the input |
| Board.FlattenInjective | LAB_03/src/PuzzleGraph.cpp:51-60 | two square boards with the same row-major cells are equal |
| Board.Goal | LAB_03/src/PuzzleGraph.cpp:62-77 | the goal board is square. Its contents are stated by GraphNode.GoalCells |
| Board.GetGoalState | LAB_03/src/PuzzleGraph.cpp:62-77 | the nested loop builds the board `1, 2, …, k² − 1` in row-major order with 0 last |
| Board.EmptyPosition | LAB_03/src/PuzzleGraph.cpp:39-49 | the first blank in row-major order, or none when the board has no 0 |
| Board.SingleBlankFound | LAB_03/src/Puzzle.cpp:44-54 | on a board whose only blank is at `(y, x)` the lookup finds `(y, x)` |
| Board.CDiv | LAB_03/src/PuzzleGraph.cpp:136-137 | C++ `/`, truncating toward zero; equals Euclidean division for non-negative dividends |
| Board.CMod | LAB_03/src/PuzzleGraph.cpp:136-137 | C++ `%`: `a == d·CDiv(a, d) + r`, and the Euclidean remainder for non-negative dividends |
| Board.DivModUnique | LAB_03/src/PuzzleGraph.cpp:136-137 | quotient and remainder of a non-negative number by a positive one are unique |
| Board.CalculateManhattanDistance | LAB_03/src/PuzzleGraph.cpp:126-146 | the loop sums, over the non-blank cells, the distance to the tile's target cell |
| Board.ManhattanZero | LAB_03/src/PuzzleGraph.cpp:126-146 | the Manhattan distance is 0 exactly when every non-blank tile is on its target cell |
| Board.ManhattanGoal | LAB_03/src/Puzzle.cpp:78-98 | the goal board has Manhattan distance 0 |
| Board.Name | LAB_03/src/PuzzleGraph.cpp:392-394 | each move is labelled `UP`, `DOWN`, `LEFT` or `RIGHT` |
| Board.Opposite | LAB_03/src/PuzzleGraph.cpp:392-393 | the opposite move has the negated direction |
| Board.Swap | LAB_03/src/PuzzleGraph.cpp:380-388 | the board stays square, the two cells exchange values, every other cell is unchanged |
| Board.SwapTwice | LAB_03/src/Puzzle.cpp:108-113 | swapping the same two cells twice restores the board |
| Board.Slides | LAB_03/src/PuzzleGraph.cpp:390-411 | a move is offered exactly when the blank stays on the board |
| Board.SlidesOrdered | LAB_03/src/PuzzleGraph.cpp:394-408 | the moves keep the order UP, DOWN, LEFT, RIGHT |
| Board.SlidesCount | LAB_03/src/PuzzleGraph.cpp:394-408 | from a cell of a board of side ≥ 2 there are 2 to 4 moves |
| Board.MoveBlank | LAB_03/src/Puzzle.cpp:108-113 | sliding keeps the board square. Board.MoveBlankBlank states where the blank ends up, and Board.MoveBack that the opposite move undoes the slide |
| Board.MoveBlankBlank | LAB_03/src/PuzzleGraph.cpp:380-388 | after a slide the only blank is at the new position, and the blank lookup finds it there |
| Board.MoveBack | LAB_03/src/Puzzle.cpp:121-138 | the opposite move returns the blank and restores the board |
| NodeId.NatStr | LAB_03/src/PuzzleGraph.cpp:56 | the decimal form of a natural number is a non-empty string of digits |
| NodeId.ReadNatStr | LAB_03/src/PuzzleGraph.cpp:56 | reading the decimal form back gives the number |
| NodeId.IdOf | LAB_03/src/PuzzleGraph.cpp:51-60 | the id of at least one cell ends in a digit; no cells give the empty id |
| NodeId.ParseId | LAB_03/src/PuzzleGraph.cpp:51-60 | parsing an id gives back its cells, negative cells included |
| NodeId.IdInjective | LAB_03/src/PuzzleGraph.cpp:51-60 | two cell lists have the same id exactly when they are equal |
| NodeId.StrLessIrreflexive | LAB_03/src/PuzzleGraph.cpp:319-321 | no id is less than itself |
| NodeId.StrLessTransitive | LAB_03/src/PuzzleGraph.cpp:319-321 | string order is transitive |
| NodeId.StrLessTotal | LAB_03/src/PuzzleGraph.cpp:319-321 | of two different strings one is less than the other |
| GraphNode.ExtendId | LAB_03/src/PuzzleGraph.cpp:53-58 | appending one row to the stream gives the id of the cells so far |
| GraphNode.GenerateId | LAB_03/src/PuzzleGraph.cpp:51-60 | the stream loop produces the id of the board's row-major cells |
| GraphNode.FromState | LAB_03/src/PuzzleGraph.cpp:33-37 | the node keeps the board and its size, and its blank and id agree with the board |
| GraphNode.FromInput | LAB_03/src/PuzzleGraph.cpp:11-31 | a node exactly for 9 or 16 cells, of size 3 or 4, holding the input row by row; otherwise the exception's message |
| GraphNode.EqualIffSameState | LAB_03/src/PuzzleGraph.cpp:315-317 | comparing ids compares boards: well-formed nodes are equal exactly when their boards are |
| GraphNode.LessStrictTotal | LAB_03/src/PuzzleGraph.cpp:319-321 | `<` on nodes is irreflexive and transitive, and any two nodes with different boards are ordered |
| GraphNode.Tiles | LAB_03/src/PuzzleGraph.cpp:90-98 | the cells without the blank: a value appears exactly when it is a non-zero cell |
| GraphNode.InversionsZero | LAB_03/src/PuzzleGraph.cpp:101-108 | a list has no inversions exactly when it is ascending |
| GraphNode.CountBelow | LAB_03/src/PuzzleGraph.cpp:103-107 | the inner loop counts the later entries smaller than entry `i` |
| GraphNode.CountInversions | LAB_03/src/PuzzleGraph.cpp:101-108 | the double loop counts the pairs `i < j` with `a[i] > a[j]` |
| GraphNode.LastBlankRow | LAB_03/src/PuzzleGraph.cpp:87-97 | the last row holding a 0, or −1 when there is none |
| GraphNode.ScanRow | LAB_03/src/PuzzleGraph.cpp:91-97 | one row's scan appends its non-zero cells and updates the blank row |
| GraphNode.IsSolvable | LAB_03/src/PuzzleGraph.cpp:85-124 | the parity rule: for odd size the inversions are even; for even size their parity is opposite to that of the blank's row counted from the bottom |
| GraphNode.GoalCells | LAB_03/src/PuzzleGraph.cpp:62-77 | the goal's row-major cells are `1, …, k² − 1` followed by 0 |
| GraphNode.TilesSorted | LAB_03/src/PuzzleGraph.cpp:90-98 | the goal's tiles are ascending |
| GraphNode.GoalSolvable | LAB_03/src/PuzzleGraph.cpp:85-124 | the goal board is solvable for every size |
| Heuristics.CountConflictsInLine | LAB_03/src/PuzzleGraph.cpp:270-291 | the loop counts the pairs of tiles whose targets are in reversed order (the inversions of `Positions`) |
| Heuristics.RowConflicts | LAB_03/src/PuzzleGraph.cpp:240-251 | the conflicts summed over all rows |
| Heuristics.ColConflicts | LAB_03/src/PuzzleGraph.cpp:253-264 | the conflicts summed over all columns |
| Heuristics.CalculateLinearConflicts | LAB_03/src/PuzzleGraph.cpp:236-268 | the row conflicts plus the column conflicts |
| Heuristics.RowLineOrdered | LAB_03/src/PuzzleGraph.cpp:240-251 | when every tile collected from a row sits in its goal column, the goal columns of the collected tiles are ascending and all before `j`, so the row has no conflicting pair |
| Heuristics.ColLineOrdered | LAB_03/src/PuzzleGraph.cpp:253-264 | the same for a column: tiles in their goal rows come in ascending goal row |
| Heuristics.RowsNoConflicts | LAB_03/src/PuzzleGraph.cpp:240-251 | with every tile on its target no row has a conflict |
| Heuristics.GoalNoConflicts | LAB_03/src/PuzzleGraph.cpp:236-268 | the goal board has no linear conflicts |
| Heuristics.AdvancedHeuristic | LAB_03/src/PuzzleGraph.cpp:149-165 | the composite estimate is at least Manhattan plus twice the linear conflicts, and equal to it unless the side is 4 |
| Heuristics.AdvancedAtTargets | LAB_03/src/PuzzleGraph.cpp:149-234 | with every tile on its target all penalties vanish |
| Heuristics.AdvancedGoal | LAB_03/src/PuzzleGraph.cpp:149-165 | the composite estimate of the goal is 0 |
| Heuristics.CalculateAdvancedHeuristic | LAB_03/src/PuzzleGraph.cpp:149-165 | the method returns the composite estimate |
| PuzzleGraph.AddNode | LAB_03/src/PuzzleGraph.cpp:332-337 | the node is stored under its id, replacing any other; its id gets a list, and every existing list is kept |
| PuzzleGraph.AddEdge | LAB_03/src/PuzzleGraph.cpp:339-347 | both nodes are stored; an edge `from → to` of cost 1 with the label ends `from`'s list; every other list is unchanged |
| PuzzleGraph.GetNode | LAB_03/src/PuzzleGraph.cpp:367-373 | the stored node exactly when the id is present, otherwise the message `Nó não encontrado: ` + id |
| PuzzleGraph.AddNodeCount | LAB_03/src/PuzzleGraph.hpp:92 | adding a node raises the node count by one exactly when its id is new |
| PuzzleGraph.Targets | LAB_03/src/PuzzleGraph.cpp:352-358 | at most one neighbour per edge, each the stored node an edge leads to |
| PuzzleGraph.AddNodeClosed | LAB_03/src/PuzzleGraph.cpp:332-337 | adding a node keeps every list leading from its owner to stored nodes |
| PuzzleGraph.AddEdgeClosed | LAB_03/src/PuzzleGraph.cpp:339-347 | adding an edge keeps every list leading from its owner to stored nodes |
| PuzzleGraph.NeighborsOfClosed | LAB_03/src/PuzzleGraph.cpp:349-361 | in such a graph each edge of a node yields its target, in list order |
| PuzzleGraph.NeighborsAfterAddEdge | LAB_03/src/PuzzleGraph.cpp:339-361 | after `addEdge(from, to, m)` the last neighbour of `from` is `to` |
| PuzzleGraph.GetEdgeCount | LAB_03/src/PuzzleGraph.cpp:413-419 | the sum of all list lengths, in any key order |
| PuzzleGraph.AddNodeEdgeCount | LAB_03/src/PuzzleGraph.cpp:332-337 | adding a node never changes the edge count |
| PuzzleGraph.AddEdgeCount | LAB_03/src/PuzzleGraph.cpp:339-347 | adding an edge raises the edge count by exactly one |
| PuzzleGraph.GenerateNeighbors | LAB_03/src/PuzzleGraph.cpp:390-411 | one entry per move that keeps the blank on the board, in the order UP, DOWN, LEFT, RIGHT: the node reached by that slide and the move's label |
| PuzzleGraph.NeighborsProperties | LAB_03/src/PuzzleGraph.cpp:375-411 | a node with one blank has 2 to 4 neighbours; each is well formed with its blank at the new cell, and the opposite move leads back to the node's board |
| Puzzles.FromBoard | LAB_03/src/Puzzle.cpp:37-42 | the puzzle keeps the board, cost and path; its blank and estimate agree with the board |
| Puzzles.FromInput | LAB_03/src/Puzzle.cpp:14-34 | a puzzle exactly for 9 or 16 cells, with the input row by row, cost 0 and an empty path; otherwise the exception's message |
| Puzzles.SolvedZero | LAB_03/src/Puzzle.cpp:73-102 | a solved puzzle has estimate 0 |
| Puzzles.MakeMove | LAB_03/src/Puzzle.cpp:108-119 | the successor is well formed, of the same size, one step more expensive |
| Puzzles.GetNeighbors | LAB_03/src/Puzzle.cpp:121-138 | one successor per move that keeps the blank on the board, in the order UP, DOWN, LEFT, RIGHT |
| Puzzles.LessOrder | LAB_03/src/Puzzle.cpp:166-175 | `<` is a strict weak order whose ties are equal total cost and equal estimate; a lower total cost is never the lesser, so the queue's top has the least total cost |
| Puzzles.WordsExtend | LAB_03/src/Puzzle.cpp:114-116 | appending a label to a path appends exactly one word |
| Puzzles.WordsJoin | LAB_03/src/Puzzle.cpp:114-116 | a path built label by label splits back into those labels |
| Puzzles.NeighborsProperties | LAB_03/src/Puzzle.cpp:108-138 | with one blank there are 2 to 4 successors; each costs one more, its path's words are the old ones plus its move, its blank is at the new cell, and the opposite move gives a puzzle equal to the original at cost two more |
| Puzzles.NeighborOf | LAB_03/src/Puzzle.cpp:108-119 | one move adds its label as the last word of the path, puts the blank where it slid, and the opposite move restores an equal puzzle at cost two more |

## Left out

- Input and output: reading from `cin`, printing results, distance matrices, boards and graph summaries (`toString`, `print`, `printGraphInfo`, `printDistanceMatrix`).
- 32-bit integer arithmetic: no member models `int` overflow. All sums, distances, costs and inversion counts are unbounded integers, and the `INT_MAX` sentinels are the constructor `Inf`.
- MinCostFlow.Solve: does not prove that the final graph's flows, read off per input arc, form a flow of value `maxflow` of the input arcs. Maximality is stated through the cut: `maxflow` equals the cut's capacity, and that capacity bounds every such flow.
- MinCostFlow.Execute: requires non-negative costs on the residual arcs of the initial graph, because the proof of `PotentialSearch.Search` needs non-negative reduced costs. The C++ search keeps no settled set: a vertex whose label drops after it was popped is pushed and scanned again (LAB_04/src/FluxMaxCustoMin.cpp:74 and :88-93). So it is label-correcting, and on negative costs without a negative residual cycle it still returns exact distances and a shortest-path tree. That case is not modelled. On a negative residual cycle reachable from the source, the C++ search never ends and its `int` labels overflow.
- MinCostFlow.Execute: optimality of the cost is not stated; only the cost identity is.
- MinCostFlow.Solve: requires every capacity to be non-negative, which `main` (LAB_04/src/main.cpp:37-39) does not check. In the C++ an arc with negative capacity is never residual: its residual `capacidade - fluxo` stays negative (LAB_04/src/FluxMaxCustoMin.cpp:87 and :122), and its partner's residual stays 0. So it carries no flow and acts as an absent arc. The model's well-formedness invariant (no edge carries more than its capacity) does not hold for such an edge, so these inputs are not modelled.
- MinCostFlow.Execute: does not loop forever when source and sink coincide; see Findings.
- PotentialSearch.Search: the priority queue is a multiset with pop-minimum. Heap order among equal keys is not modelled.
- Johnson.Dijkstra: requires the reweighted edges to be non-negative. The C++ `dijkstra` is private (LAB_02/directed-graph.hpp:36) and its only caller, `allPairsShortestPaths`, calls it after that check. It also takes potentials of length `n`. The C++ passes the whole Bellman–Ford vector of the auxiliary graph: that graph has `n + 1` vertices and `bellmanFord` returns `numVertices + 1` entries, so the vector has `n + 2`. `dijkstra` only reads the first `n` entries, and `Johnson.Heights` keeps exactly those.
- Connectivity.FindCutVertexPairs: the `std::set` is modelled by the lexicographic order in which pairs are produced.
- The recursion of `dfs`, `dfsExcluding` and `dfsAP` is modelled: the first two as an explicit-stack search and the third as a recursive method. The recursion depth limit of the C++ stack is not modelled.
- The default constructors of `GraphNode` and `Puzzle` (size 0, blank at `(0, 0)`) are not modelled. `PuzzleGraph()` (LAB_03/src/PuzzleGraph.cpp:330) starts with no nodes and is `PuzzleGraph.EmptyGraph`.
- PuzzleGraph.GenerateNeighbors and Puzzles.GetNeighbors: require a board that contains a blank. Without one the C++ reads a position that `findEmptyPosition` never assigned.
- Puzzles.FromBoard: requires a square board. The C++ indexes past the end of shorter rows otherwise.
- The hash functors `PuzzleHash` and the `GraphNode` hash are not part of this model; only equality, which they must agree with, is.
- The A* drivers `AStar.cpp` and `GraphAStar.cpp` are not part of this model.
- That a slide preserves solvability is not proved.
- The corner, edge and walking-distance penalties are modelled as functions over the board, not as the C++ loops.

## Findings

| source | as written | input that shows it | evidently intended | confidence | as-written member | corrected member |
|---|---|---|---|---|---|---|
| LAB_04/src/FluxMaxCustoMin.cpp:21-38 | the augmenting loop runs while the search reaches the sink, then walks parents from the sink back to the source | source = sink, as `main` (LAB_04/src/main.cpp:44) produces for a one-vertex graph: the search always reaches the sink at distance 0, the bottleneck stays `INT_MAX`, nothing changes and the loop repeats forever; from the second round on, `fluxo_maximo += fluxo_a_enviar` (:49) adds `INT_MAX` again and overflows | no augmentation when the source is the sink: flow 0 and cost 0 | not executed | MinCostFlow.SourceAsSinkNeverStops | MinCostFlow.Execute |
