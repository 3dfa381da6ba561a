# Directed unweighted graph: a Dafny model

This project models `UnweightedGraph<V>`, a directed, unweighted graph.

- **State.** A graph holds a list of distinct vertex values and, in parallel, one list of outgoing edges per vertex.
- **Updates.** Vertices and edges are added in place, and the graph can be cleared.
- **Queries.** The vertex count, the vertex values, the index of a value, the out-neighbours and out-degree of a vertex, and all edges.
- **Traversals.** Depth-first search (recursive, pre-order) and breadth-first search (FIFO queue; a vertex is marked visited when it is enqueued). Each returns a `Tree`: the root, one parent entry per vertex (-1 for none) and the discovery order.
- **Paths.** `getPath` walks parent entries from a vertex back to one without a parent.

## Layout

- `edges.dfy`, module `Edges`: the `Edge` value and its equality; the `Result`/`Outcome` values that carry the range error.
- `adjacency.dfy`, module `Adjacency`: the adjacency lists as a value with their invariant `WellFormed`; the pure effect of inserting edges (`AddEdgeTo`, `InsertEdges`) and vertices (`AddVertices`); out-neighbours (`Targets`), the flattened edge list (`Flatten`) and reachability along edges.
- `search_tree.dfy`, module `SearchTrees`: the `Tree` result, whose getters `GetRoot`, `GetParent`, `GetSearchOrder` and `GetNumberOfVerticesFound` read its fields and state what those hold in a search tree; `IsSearchTree`, the shape every traversal result has; the parent walk `PathFrom` with its termination proof; the fact that a search tree closed under edges found exactly the reachable vertices; and that a tree ordered by depth with shortest walks back lists its vertices by distance from the root.
- `search_state.dfy`, module `SearchStates`: the invariants both traversals keep on their parent entries and order, and how one discovery step preserves each of them.
- `dfs.dfy`, module `DepthFirst`: depth-first search as pure functions over `(parent, order)`, with its correctness proof.
- `levels.dfy`, module `Levels`: the level of a discovered vertex (its number of parent links back to the root), and the facts about levels that breadth-first search keeps: levels never decrease along the order, stay within one of the vertex being scanned, and rise by at most one along every edge of a dequeued vertex. From these it follows that the order is by depth and that tree walks are shortest walks.
- `bfs.dfy`, module `BreadthFirst`: breadth-first search as pure functions over `(parent, order, queue)`, with its correctness proof and its level-by-level property.
- `graph.dfy`, module `Graphs`: `class UnweightedGraph<V(==)>` with fields `vertices: seq<V>` and `neighbors: seq<seq<Edge>>`, updated in place; the builders; the queries written as loops; the recursive `DfsVisit` method and the `Bfs` while loop over `array` parent/visited state; `GetPath` as a loop. The state-changing methods are specified by the functions of `Adjacency`, the traversal methods by those of `DepthFirst` and `BreadthFirst`.
- `example.dfy`, module `Examples`: vertices A, B, C, D with edges 0->1, 1->2, 0->2, 2->3. Depth-first search from 0 gives order 0,1,2,3 with parent of 2 = 1; breadth-first search gives the same order with parent of 2 = 0; the walk back from 3 is D, C, B, A.

How each traversal is verified:

- A pure function threads the traversal state exactly as the source updates it. "Visited" is membership in the order (plus the queue, for BFS).
- The imperative method keeps `isVisited[i] <==> i in order(+queue)`. It is proved to compute that function.
- Each invariant of the state, proved separately: parents are stored edges, undiscovered vertices have no parent, parents are discovered earlier, every vertex after the first has a parent, and dequeued or visited vertices are finished.
- `DfsSpec`/`BfsSpec` combine these invariants. The result is a search tree whose order holds exactly the vertices reachable from the root, so `getNumberOfVerticesFound` is the size of the reachable set. The `Tree` getters state what they return in any search tree; what a traversal's tree holds is stated through `IsSearchTree` and `FoundIsReachable`.
- For breadth-first search, the FIFO queue also keeps the levels of the `Levels` module. `BfsSpec` therefore also states that the order lists vertices by depth in the tree, and that the tree's walk back from any vertex is no longer than any walk along edges from the root to it. `DfsNotShortest` shows that depth-first search gives no such guarantee on the example graph.

## Model

| member | source | states |
|---|---|---|
| Edges.EqualsIsStructural | graph/UnweightedGraph.java:182-184 | Two edges are equal exactly when both endpoints match, which is Dafny's equality on `Edge`. |
| Edges.ContainsEdge | graph/UnweightedGraph.java:151 | The list-containment test is true iff some element `Equals` the edge, iff the edge is in the list. |
| Adjacency.AddEdgeTo | graph/UnweightedGraph.java:141-160 | Inserting `u -> v` fails iff an endpoint is out of range, and then changes nothing. It returns `true` iff the edge is in range and not yet stored; then the edge is appended to `u`'s list and every other list is unchanged. Otherwise nothing changes. Afterwards the edge is stored whenever no error occurred. The error names `u` when `u` is out of range, and `v` otherwise. |
| Adjacency.AddEdgePreservesWellFormed | graph/UnweightedGraph.java:144-155 | After `addEdge` every stored edge still leaves its own vertex, ends at a vertex in range, and is stored once. |
| Adjacency.AddEdgeTwiceRejected | graph/UnweightedGraph.java:151-159 | Re-adding an edge that was accepted returns `false` and changes nothing. |
| Adjacency.InsertEdges | graph/UnweightedGraph.java:32-43 | Inserting an edge sequence never changes the number of adjacency lists. |
| Adjacency.InsertEdgesWellFormed | graph/UnweightedGraph.java:32-43 | Inserting a sequence of edges keeps every list well formed. |
| Adjacency.InsertEdgesPass | graph/UnweightedGraph.java:34-35 | The insertion loop completes without an exception iff every edge's endpoints are in range. |
| Adjacency.InsertEdgesError | graph/UnweightedGraph.java:144-148 | A failed insertion names the first bad endpoint (`u` before `v`) of the first out-of-range edge, all edges before it being in range. |
| Adjacency.InsertEdgesContents | graph/UnweightedGraph.java:39-43 | After a successful insertion, list `i` holds exactly its old edges and the inserted edges leaving `i`. |
| Adjacency.InsertEdgesSpec | graph/UnweightedGraph.java:32-43 | Inserting a sequence of edges keeps the lists well formed and succeeds iff every edge is in range. On failure the error names the first bad endpoint (`u` before `v`) of the first out-of-range edge. On success list `i` holds exactly its old edges plus the inserted edges leaving `i`. |
| Adjacency.InsertEdgesStops | graph/UnweightedGraph.java:34-35 | Once an insertion fails, the later edges are never inserted (the exception ends the loop). |
| Adjacency.InsertEdgesStep | graph/UnweightedGraph.java:41-42 | After a prefix that passed, one more loop iteration is one `addEdge` on the current lists. |
| Adjacency.RowEdges | graph/UnweightedGraph.java:34-35 | Row `k` of the index table becomes the edge `rows[k][0] -> rows[k][1]`, in row order. |
| Adjacency.EmptyLists | graph/UnweightedGraph.java:133 | `n` empty edge lists form a well-formed structure of `n` lists. |
| Adjacency.AddVertices | graph/UnweightedGraph.java:16-17 | The reference for the constructors' vertex loop: adding values in turn with repeats skipped keeps the old values as a prefix and adds at most one entry per value. |
| Adjacency.AddVerticesSpec | graph/UnweightedGraph.java:16-17 | Adding vertex values in turn keeps them distinct and keeps the old values as a prefix. Afterwards the list holds exactly the old values and the added ones. |
| Adjacency.Targets | graph/UnweightedGraph.java:77-79 | The result has one entry per edge: entry `k` is the target of edge `k`. |
| Adjacency.TargetsSpec | graph/UnweightedGraph.java:75-82 | The targets of list `i` are exactly the `w` with `i -> w` stored. They are in range and distinct. |
| Adjacency.Flatten | graph/UnweightedGraph.java:107-116 | The reference for `getEdges`: the concatenation of the lists holds an edge iff some list holds it. |
| Adjacency.FlattenSources | graph/UnweightedGraph.java:107-116 | When each list holds edges leaving its own index, an edge is in the concatenation iff it is in the list of its source. |
| Adjacency.FlattenOrdered | graph/UnweightedGraph.java:109-113 | When each list holds edges leaving its own index, without repeats, the concatenation is ordered by source and has no repeats. |
| Adjacency.FlattenSpec | graph/UnweightedGraph.java:107-116 | The concatenated lists hold exactly the stored edges, are grouped by source in index order, and have no repeats. |
| Adjacency.ClosedContainsWalk | graph/UnweightedGraph.java:218-223 | A walk that starts inside a vertex set closed under edges stays inside it. |
| SearchTrees.Tree.GetRoot | graph/UnweightedGraph.java:271-273 | Returns the root. In a search tree it is in range, has parent -1 and is the first vertex of the order. |
| SearchTrees.Tree.GetParent | graph/UnweightedGraph.java:276-278 | Returns `parent[v]`. In a search tree that is -1, or a vertex in range discovered strictly before `v`, with `v` discovered. |
| SearchTrees.Tree.GetSearchOrder | graph/UnweightedGraph.java:281-283 | Returns the search order. In a search tree it starts at the root and lists distinct vertices in range. |
| SearchTrees.Tree.GetNumberOfVerticesFound | graph/UnweightedGraph.java:286-288 | Returns the length of the search order. In a search tree that is at least 1 and the number of distinct vertices found. |
| SearchTrees.ParentIsEarlier | graph/UnweightedGraph.java:219-221 | In a search tree, a vertex with a parent is discovered, its parent is discovered strictly earlier, and the parent is in range. |
| SearchTrees.PathFrom | graph/UnweightedGraph.java:294-298 | The parent walk starts at `index`, each next entry is the parent of the previous one, and it stops at the first vertex with parent -1. Termination is by rank in the search order. |
| SearchTrees.PathEndsAtRoot | graph/UnweightedGraph.java:291-301 | From a discovered vertex the walk ends at the root. From a vertex with parent -1, or an undiscovered one, it is that vertex alone. |
| SearchTrees.PathIsGraphPath | graph/UnweightedGraph.java:304-309 | The walk from a discovered vertex, reversed as the path printer does, is a walk along stored edges from the root to that vertex. |
| SearchTrees.Reverse | graph/UnweightedGraph.java:308-309 | Entry `k` of the reversal is entry `k` of the input counted from the end. |
| SearchTrees.TreeWalkTo | graph/UnweightedGraph.java:294-309 | For a discovered vertex of a tree along stored edges, there is a walk from the root to it with as many vertices as the tree's walk back. |
| SearchTrees.ByDistance | graph/UnweightedGraph.java:240-250 | In a tree along stored edges that is ordered by depth and has shortest walks back, for `a` listed no later than `b`, some walk from the root to `a` is no longer than any walk from the root to `b`. |
| SearchTrees.OrderIsReachable | graph/UnweightedGraph.java:281-283 | Every vertex in the search order of a tree along stored edges is reachable from the root. |
| SearchTrees.FoundIsReachable | graph/UnweightedGraph.java:286-288 | A closed search tree along stored edges has found exactly the reachable vertices. `getNumberOfVerticesFound` is the size of the reachable set. |
| SearchTrees.CardOfNoDuplicates | graph/UnweightedGraph.java:286-288 | An order without repeats has as many entries as distinct vertices. |
| SearchStates.AppendFresh | graph/UnweightedGraph.java:215 | Appending an undiscovered in-range vertex keeps the order distinct and in range, and the order was shorter than the vertex count. |
| SearchStates.NoDuplicatesBound | graph/UnweightedGraph.java:240-250 | Distinct vertices in range number at most the vertex count. This bounds both searches. |
| SearchStates.DiscoverEarlier | graph/UnweightedGraph.java:219-221 | Discovering `w` from a discovered `u` keeps every parent discovered before its child. |
| SearchStates.DiscoverLater | graph/UnweightedGraph.java:244-247 | Discovering `w` from `u >= 0` keeps every vertex after the first parented. |
| SearchStates.NoParents | graph/UnweightedGraph.java:197-199 | A traversal starts with one parent entry per vertex, every one -1 (the same loop is at lines 230-232). |
| SearchStates.ToSearchTree | graph/UnweightedGraph.java:208 | A finished traversal state satisfying the invariants is a search tree along stored edges, and its order is closed under edges. |
| DepthFirst.DfsVisit | graph/UnweightedGraph.java:212-224 | Visiting `u` keeps the state well formed, and the new order extends the old one followed by `u` (pre-order). |
| DepthFirst.DfsEdges | graph/UnweightedGraph.java:218-223 | Scanning the edges of `u` keeps the state well formed and only extends the order. |
| DepthFirst.Dfs | graph/UnweightedGraph.java:194-209 | The tree is rooted at `v` and has one parent entry per vertex. |
| DepthFirst.VisitParentEdges | graph/UnweightedGraph.java:212-224 | Each new parent entry of the recursive visit is a stored edge into its vertex. |
| DepthFirst.EdgesParentEdges | graph/UnweightedGraph.java:218-221 | Setting `parent[e.v] = u` while scanning the edges of `u` records a stored edge. |
| DepthFirst.VisitOrphans | graph/UnweightedGraph.java:212-224 | After a visit, undiscovered vertices still have parent -1. |
| DepthFirst.EdgesOrphans | graph/UnweightedGraph.java:218-223 | Parents are set only on vertices that are then discovered. |
| DepthFirst.VisitEarlier | graph/UnweightedGraph.java:215-221 | After a visit, every discovered vertex has no parent or one discovered before it. |
| DepthFirst.EdgesEarlier | graph/UnweightedGraph.java:219-221 | The scan gives a newly discovered vertex the already discovered `u` as parent. |
| DepthFirst.VisitLater | graph/UnweightedGraph.java:215-221 | After a visit, every vertex after the first in the order has a parent. |
| DepthFirst.EdgesLater | graph/UnweightedGraph.java:219-221 | The scan discovers vertices only by giving them a parent. |
| DepthFirst.VisitFinishes | graph/UnweightedGraph.java:218-223 | Every vertex discovered by a visit has all its edges' targets discovered when the visit returns. |
| DepthFirst.EdgesFinish | graph/UnweightedGraph.java:218-223 | When the scan of `u` ends, `u` and every vertex it discovered are finished. |
| DepthFirst.EdgesFinishVisit | graph/UnweightedGraph.java:219-222 | The same, for a scan step that recurses into an unvisited target. |
| DepthFirst.DfsSpec | graph/UnweightedGraph.java:194-224 | `dfs(v)` returns a search tree: the order starts at `v` without repeats, `parent[v] == -1`, every parent comes earlier in the order, and undiscovered vertices keep -1. Parent entries are stored edges, and the order holds exactly the vertices reachable from `v`. |
| BreadthFirst.Enqueue | graph/UnweightedGraph.java:245-247 | Enqueueing `w` adds it at the end of what has been seen, sets its parent to `u` and no other parent, and leaves the dequeued vertices alone. |
| BreadthFirst.BfsEdges | graph/UnweightedGraph.java:243-249 | Scanning the edges of a dequeued vertex keeps one parent entry per vertex, keeps seen vertices distinct and in range when they were, changes no dequeued vertex, and only extends the seen list. |
| BreadthFirst.Dequeue | graph/UnweightedGraph.java:241-242 | Dequeuing moves the queue head to the end of the order. The seen list is unchanged. |
| BreadthFirst.BfsLoop | graph/UnweightedGraph.java:240-250 | The loop ends with an empty queue, every enqueued vertex dequeued once, and the order extending everything seen at entry. |
| BreadthFirst.Bfs | graph/UnweightedGraph.java:228-253 | The tree is rooted at `v` and has one parent entry per vertex. |
| BreadthFirst.EdgesParentEdges | graph/UnweightedGraph.java:243-246 | Setting `parent[e.v] = u` during a scan records a stored edge. |
| BreadthFirst.LoopParentEdges | graph/UnweightedGraph.java:240-250 | Over the whole loop, every parent entry is a stored edge. |
| BreadthFirst.EdgesOrphans | graph/UnweightedGraph.java:244-247 | Parents are set only on vertices that are enqueued at once. |
| BreadthFirst.LoopOrphans | graph/UnweightedGraph.java:240-250 | After the loop, vertices never enqueued have parent -1. |
| BreadthFirst.EdgesEarlier | graph/UnweightedGraph.java:244-247 | An enqueued vertex gets as parent a vertex seen before it. |
| BreadthFirst.LoopEarlier | graph/UnweightedGraph.java:240-250 | After the loop, every parent is earlier in the order than its child. |
| BreadthFirst.EdgesLater | graph/UnweightedGraph.java:244-247 | Vertices are enqueued only with a parent. |
| BreadthFirst.LoopLater | graph/UnweightedGraph.java:240-250 | After the loop, every vertex after the first has a parent. |
| BreadthFirst.EdgesFinish | graph/UnweightedGraph.java:243-249 | After the scan of `u`, every target of `u` has been seen. |
| BreadthFirst.LoopFinishes | graph/UnweightedGraph.java:240-250 | After the loop, every dequeued vertex has all its targets in the order. |
| BreadthFirst.EdgesLayers | graph/UnweightedGraph.java:243-249 | Scanning the edges of the vertex dequeued last keeps levels monotone along the order and within one of that vertex's, and leaves each of its edges ending at a seen vertex at most one level below it. |
| BreadthFirst.EdgesLayersNew | graph/UnweightedGraph.java:244-247 | The same, for a scan step that enqueues an unseen target with parent `u`. |
| BreadthFirst.LoopLayers | graph/UnweightedGraph.java:240-250 | After the queue loop, levels never decrease along the order, and every edge of a dequeued vertex rises by at most one level. |
| BreadthFirst.BfsTree | graph/UnweightedGraph.java:228-253 | `bfs(v)` returns a search tree rooted at `v` along stored edges. Each vertex is enqueued at most once. The order holds exactly the vertices reachable from `v`. |
| BreadthFirst.BfsLevels | graph/UnweightedGraph.java:237-250 | The tree of `bfs(v)` lists its vertices by depth, and its walk back from each vertex is a shortest walk from `v`. |
| BreadthFirst.BfsSpec | graph/UnweightedGraph.java:228-253 | `bfs(v)` returns a search tree rooted at `v` along stored edges. Each vertex is enqueued at most once. The order holds exactly the vertices reachable from `v`. The order is by depth, and no walk from `v` to a vertex is shorter than the tree's walk back from it. |
| BreadthFirst.BfsByDistance | graph/UnweightedGraph.java:237-250 | `bfs(v)` visits vertices by distance from `v`: for `a` listed no later than `b`, some walk from `v` to `a` is no longer than any walk from `v` to `b`. |
| Levels.PosAtMost | graph/UnweightedGraph.java:242 | A vertex at position `j` of the order was first added at `j` or earlier. |
| Levels.ParentPos | graph/UnweightedGraph.java:246 | The parent of a discovered vertex is discovered strictly before it. |
| Levels.LevelDiscover | graph/UnweightedGraph.java:245-247 | Discovering a new vertex changes the level of no discovered vertex. |
| Levels.LevelNew | graph/UnweightedGraph.java:246 | A vertex discovered from `u` is one level below `u`. |
| Levels.SpreadShift | graph/UnweightedGraph.java:241 | Dequeuing the next vertex keeps later levels within one of its level. |
| Levels.Discover | graph/UnweightedGraph.java:245-247 | Enqueueing a new vertex from the vertex being scanned keeps levels monotone along the order and within one of the scanned vertex's. The new vertex is one level below it; no other level changes. |
| Levels.ShortEdgesDiscover | graph/UnweightedGraph.java:245-247 | Discovering a vertex keeps every earlier vertex's edges at most one level deep. |
| Levels.ScanKnown | graph/UnweightedGraph.java:244 | An edge to an already visited vertex ends at most one level below the vertex being scanned. |
| Levels.ScanNew | graph/UnweightedGraph.java:244-247 | An edge to an unvisited vertex discovers it one level below the vertex being scanned, and keeps the scan's level facts. |
| Levels.ScanDone | graph/UnweightedGraph.java:243-249 | When the scan of a vertex ends, all its edges rise by at most one level. |
| Levels.WalkBound | graph/UnweightedGraph.java:240-250 | If every discovered vertex's edges rise by at most one level, a walk of `n` vertices from a discovered vertex ends at a discovered vertex whose level is at most `n - 1` above the start's. |
| Levels.SearchTreeLeveled | graph/UnweightedGraph.java:219-221 | In a search tree, parents come before their children in the order. |
| Levels.DepthIsLevel | graph/UnweightedGraph.java:294-298 | The walk back from a discovered vertex has one entry more than the vertex's level. |
| Levels.LevelsGiveShortestPaths | graph/UnweightedGraph.java:291-301 | A search tree with monotone levels and edges that rise by at most one level lists vertices by depth. Its walk back from each vertex is no longer than any walk from the root. |
| Graphs.IndexOf | graph/UnweightedGraph.java:70 | `indexOf` gives -1 iff the value is absent. Otherwise it gives the first index holding it. |
| Graphs.IndexOfDistinct | graph/UnweightedGraph.java:68-71 | In a list without repeats, the index of `s[i]` is `i`. |
| Graphs.UnweightedGraph.constructor | graph/UnweightedGraph.java:11 | The new graph is empty and valid. |
| Graphs.UnweightedGraph.FromArrays | graph/UnweightedGraph.java:14-20 | Vertices are added in turn with repeats skipped, then rows are inserted as edges. Construction fails exactly when an edge is out of range, with that error. |
| Graphs.UnweightedGraph.FromLists | graph/UnweightedGraph.java:23-28 | The same, from a vertex list and an edge list. |
| Graphs.UnweightedGraph.AddVertexList | graph/UnweightedGraph.java:16-17 | The loop that adds each vertex value gives `AddVertices` on the values and one new empty edge list per added vertex. |
| Graphs.UnweightedGraph.CreateAdjacencyLists | graph/UnweightedGraph.java:32-36 | The loop over table rows has the effect `InsertEdges` describes. Vertices are unchanged. |
| Graphs.UnweightedGraph.CreateAdjacencyListsFromEdges | graph/UnweightedGraph.java:39-43 | The loop over an edge list has the effect `InsertEdges` describes. Vertices are unchanged. |
| Graphs.UnweightedGraph.GetSize | graph/UnweightedGraph.java:47-50 | The size is both the number of vertices and the number of adjacency lists. |
| Graphs.UnweightedGraph.GetVertices | graph/UnweightedGraph.java:54-57 | The vertex list has `getSize()` entries, all distinct. |
| Graphs.UnweightedGraph.GetVertex | graph/UnweightedGraph.java:61-64 | The value at `index` is a vertex that `getIndex` maps back to `index`. |
| Graphs.UnweightedGraph.GetIndex | graph/UnweightedGraph.java:68-71 | -1 iff the value is not a vertex. Otherwise, the first index holding it. |
| Graphs.UnweightedGraph.GetNeighbors | graph/UnweightedGraph.java:75-82 | The loop returns the targets of the edges of `index` in insertion order: exactly the out-neighbours, distinct and in range. |
| Graphs.UnweightedGraph.GetDegree | graph/UnweightedGraph.java:86-89 | The degree is the length of the neighbour list, and also the number of distinct out-neighbours. |
| Graphs.UnweightedGraph.GetEdges | graph/UnweightedGraph.java:107-116 | The nested loop returns all lists concatenated in index order: each stored edge exactly once, grouped by source. |
| Graphs.UnweightedGraph.Clear | graph/UnweightedGraph.java:121-125 | Both lists become empty and the graph stays valid. |
| Graphs.UnweightedGraph.AddVertex | graph/UnweightedGraph.java:128-138 | It returns `true` iff the value was absent. Then the value and an empty edge list are appended; otherwise nothing changes. The lists stay parallel. |
| Graphs.UnweightedGraph.AddEdge | graph/UnweightedGraph.java:141-160 | A range error on `u`, then on `v`, with nothing changed. Otherwise `false` and nothing changed for a stored edge, or `true` with the edge appended to `u`'s list alone. |
| Graphs.UnweightedGraph.AddEdgeByIndex | graph/UnweightedGraph.java:164-167 | The same as `AddEdge(Edge(u, v))`. |
| Graphs.UnweightedGraph.NewParents | graph/UnweightedGraph.java:197-199 | A fresh array of `n` entries, all -1. |
| Graphs.UnweightedGraph.Dfs | graph/UnweightedGraph.java:194-209 | It computes `DepthFirst.Dfs`, so it returns a search tree rooted at `v` along stored edges that found exactly the reachable vertices. |
| Graphs.UnweightedGraph.DfsVisit | graph/UnweightedGraph.java:212-224 | The recursive method on the parent and visited arrays computes `DepthFirst.DfsVisit`, and keeps `isVisited` equal to membership in the order. |
| Graphs.UnweightedGraph.Bfs | graph/UnweightedGraph.java:228-253 | The queue loop computes `BreadthFirst.Bfs`, so it returns a search tree rooted at `v` along stored edges that found exactly the reachable vertices. That tree lists vertices by depth, and its walks back are shortest walks from `v`. |
| Graphs.UnweightedGraph.BfsScan | graph/UnweightedGraph.java:243-249 | The inner loop computes `BreadthFirst.BfsEdges` and keeps `isVisited` equal to membership in the order plus the queue. |
| Graphs.UnweightedGraph.GetPath | graph/UnweightedGraph.java:291-301 | The loop returns the values along `PathFrom`: first `vertices[index]`, ending at the root's value when `index` was reached, and `[vertices[index]]` when `index` has parent -1. A tree taken before more vertices were added is accepted. |
| Examples.ExampleWellFormed | graph/UnweightedGraph.java:141-160 | The example adjacency lists satisfy the graph invariant. |
| Examples.DfsExample | graph/UnweightedGraph.java:194-224 | On the example, depth-first search from 0 gives order 0,1,2,3 and parents -1,0,1,2. |
| Examples.BfsExample | graph/UnweightedGraph.java:228-253 | On the example, breadth-first search from 0 gives order 0,1,2,3 and parents -1,0,0,2. |
| Examples.ExamplePath | graph/UnweightedGraph.java:294-298 | In the example's depth-first tree, the walk from 3 is 3,2,1,0. |
| Examples.BuildExample | graph/UnweightedGraph.java:128-167 | Building A, B, C, D and the four edges yields the example adjacency lists. |
| Examples.ExampleDfs | graph/UnweightedGraph.java:291-301 | On the built graph, `dfs(0)` has parent of 2 equal to 1, and `getPath(3)` is D, C, B, A. |
| Examples.ExampleBfs | graph/UnweightedGraph.java:228-253 | On the built graph, `bfs(0)` has parent of 2 equal to 0, and its tree walks are shortest walks. |
| Examples.ExampleDfsTree | graph/UnweightedGraph.java:194-209 | The built graph and its `dfs(0)` tree, order 0,1,2,3 and parents -1,0,1,2. |
| Examples.ExamplePathAfterGrowth | graph/UnweightedGraph.java:128-138 | After `addVertex('E')`, `getPath(3)` on the earlier `dfs(0)` tree is still D, C, B, A. |
| Examples.DfsTreeWalk | graph/UnweightedGraph.java:294-298 | In the example's depth-first tree, the walk back from 2 is 2,1,0. |
| Examples.DfsNotShortest | graph/UnweightedGraph.java:194-224 | On the example, the edge 0 -> 2 is a walk of two vertices, while the depth-first tree walks back from 2 in three. So the depth-first tree is not one of shortest walks. |
| Examples.ExampleEdges | graph/UnweightedGraph.java:144-159 | On the built graph, re-adding 0 -> 1 gives `false`, and adding 3 -> 4 fails naming 4. |

## Left out

- `printEdges`, `Tree.printPath` and `Tree.printTree` (graph/UnweightedGraph.java:93-103, 304-324) only write to the console. Only the reversal `printPath` applies to the walk is modelled (`PathIsGraphPath`).
- `Edge.toString` is formatting only.
- Main.java is not part of this model. It is a console demo driver.
- Graph.java is not part of this model. It is an interface with signatures only.
- Exceptions from bad indices are preconditions, not error values. This covers `IndexOutOfBoundsException`/`ArrayIndexOutOfBoundsException` in `getVertex`, `getNeighbors`, `getDegree`, `dfs`, `bfs`, `getParent` and `getPath`.
  - Only `addEdge`'s `IllegalArgumentException` is an error value: `Err(NoSuchIndex(i))`.
  - It stops the edge-building loops and the two building constructors.
- The `ClassCastException` of `Edge.equals` on a non-edge argument is left out: edges are compared only with edges.
- Vertex values compare with Dafny equality (`V(==)`) rather than a user `equals`.
- FromArrays and FromLists are static methods returning `Result` rather than constructors that throw. A partly built graph is not observable after the exception, so nothing is lost.
- FromArrays and CreateAdjacencyLists require every row of the index table to have at least two entries; a shorter row throws in the source. Extra columns are ignored, as in the source.
- Dfs and Bfs return a `Tree` that holds a copy of the parent array and order, not a shared reference. The source never changes them after the search.
- `getPath` is a method of the graph taking the tree, because the source's inner class reads the outer graph's vertex list.
  - On a vertex the search did not reach it returns that vertex alone, as the code does. Whether to report an error instead is left open.
- The call depth of the recursive `dfs` and Java's `int` range of indices and sizes are not modelled.
- Live references are not modelled. In the source, `Edge` has public mutable fields `u` and `v`; here it is an immutable value. `getVertices`, `getEdges` and `Tree.getSearchOrder` (graph/UnweightedGraph.java:54-57, 107-116, 281-283) return the source's internal list or edge objects; here they return copies. The protected `addEdge(Edge e)` (graph/UnweightedGraph.java:153) stores the caller's object. The source keeps the invariants stated by `Valid()` only while callers leave those results unchanged.
- Graphs.UnweightedGraph.GetPath: requires `IsSearchTree(t)`. The public `Tree` constructor (graph/UnweightedGraph.java:264-268) accepts any parent array. On one whose parent links form a cycle, the loop at lines 294-298 never ends. Trees produced by `dfs` and `bfs`, including those taken before later `addVertex` calls, satisfy it.
