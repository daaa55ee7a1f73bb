# Graph algorithms of `acciones`, modelled in Dafny

The class `acciones` holds a graph of airports joined by weighted routes. Its
methods run four algorithms over that graph:

- breadth-first search (`recorridoBFS`, and `recorridoBFS2`, which threads a
  visited map through repeated calls to enumerate connected components);
- Prim's algorithm with a lazy priority queue (`prim`), returning the total tree
  weight;
- Dijkstra's algorithm in its array/selection form (`dijkstra`), returning the
  node list, the distance list and the predecessor list;
- path reconstruction (`reconstruir_camino`), which walks predecessors back from
  a destination.

The class is present twice. `funciones.py` and `Lab2-Datos2-main/funciones.py`
have the same code for the BFS, Prim and Dijkstra methods; only the comments
differ. The copies in the second file are at Lab2-Datos2-main/funciones.py:10-31
(`recorridoBFS`), :33-49 (`recorridoBFS2`), :51-82 (`prim`) and :84-135
(`dijkstra`). Each of these is modelled once, and the table below cites the
first file. `reconstruir_camino` differs between the two copies, and both
versions are modelled.

The object holds nothing but the graph, and no method changes it. So each
method is a module-level method that takes the graph as a parameter. Their
working state is kept, as in the source:

- `visit` (a dictionary over every vertex) becomes an `array<bool>` updated in
  place;
- the deques, `Vt`, `Et` and the priority queue become local `seq`/`set`
  variables;
- the `dist`, `pad` and `visitado` lists of `dijkstra` become arrays.

Modules:

- `Graphs` (graph.dfy) is the read-only graph. Vertices are `0 .. n-1` and edges
  are kept in insertion order. Each edge has an optional weight attribute. The
  neighbours of a vertex are listed in edge order (`Incident`). The module also
  defines walks and reachability, and counting lemmas.
  - The input graph is required to be `ValidGraph`: endpoints are vertices, there
    are no self-loops and no parallel edges. These are the graph builder's rules
    at Lab2.py:110 and Lab2.py:119-121.
- `Traversal` (traversal.dfy) covers `recorridoBFS` and `recorridoBFS2`.
- `Spanning` (spanning.dfy) covers `prim`.
- `ShortestPaths` (shortest.dfy) covers `dijkstra`, and what reconstruction
  yields on its table.
- `Paths` (paths.dfy) covers both versions of `reconstruir_camino`.

A predecessor table could contain a cycle. If the destination's own chain of
predecessors runs into one, the source's walk back never ends. The model asks
for a ghost `rank` map over a set of vertices that holds the destination and is
closed under predecessor links, with the rank strictly decreasing along each
link (`Paths.Ranked`). Cycles elsewhere in the table are allowed.
`ShortestPaths.Dijkstra` returns such a rank for every vertex of its own table:
the round in which each vertex was selected.

## Model

| member | source | states |
|---|---|---|
| Graphs.EdgeBetween | funciones.py:135 | `grafo[a][b]` lookup: a found edge is in the list and joins the two vertices; no edge is found only when none joins them |
| Graphs.EdgeBetweenUnique | Lab2.py:119-121 | in a graph without parallel edges, every edge joining u and v is the one the lookup finds |
| Graphs.Incident | funciones.py:26 | `grafo.neighbors(u)`: one arc per edge touching u, in edge order, so no more arcs than edges; which vertices they reach is stated by `IncidentArc` and `AdjacentArc` |
| Graphs.IncidentArc | funciones.py:26 | each neighbour listed for u is a vertex other than u, is adjacent to u, and carries the weight of the edge between them |
| Graphs.AdjacentArc | funciones.py:26 | every vertex adjacent to u is listed among u's neighbours |
| Graphs.ReachStep | funciones.py:46-49 | an unblocked neighbour of a vertex reachable around the blocked set is reachable too |
| Graphs.ReachableWithin | funciones.py:42-49 | a set holding the start and closed under unblocked neighbours holds every vertex reachable around the blocked set |
| Graphs.VertexSetBound | funciones.py:71 | a set of vertices has at most n members, and all n vertices when it has n |
| Graphs.DistinctBound | funciones.py:22-29 | a duplicate-free list of vertices is no longer than the vertex count |
| Traversal.FreshIsUnvisitedEnds | funciones.py:46-49 | what the neighbour loop appends (`Fresh`) lists, without repetition, exactly the neighbours that were not visited when the loop began |
| Traversal.FreshStep | funciones.py:47-49 | meeting one neighbour: it is appended when not yet visited, and is visited from then on |
| Traversal.MarkStep | funciones.py:47-49 | marking an unvisited neighbour of a marked vertex and queueing it keeps the search invariant |
| Traversal.VisitNeighbours | funciones.py:46-49 | the vertices appended to the queue are exactly `Fresh` of u's neighbours and the visited map on entry: the unvisited neighbours, in neighbour order, each once; the search invariant is kept; every neighbour of u is now visited |
| Traversal.ClosedStep | funciones.py:44-49 | once all of u's neighbours are visited, u joins the component with every arc out of the component leading to a visited vertex |
| Traversal.ClosedComplete | funciones.py:42-51 | when the queue is empty, the component holds every vertex reachable from the root around the vertices visited on entry |
| Traversal.Expand | funciones.py:43-49 | one turn of the outer loop: the front of the queue is popped and appended to the component, and the new queue is the rest of the old one followed by the front's unvisited neighbours in neighbour order (first in, first out); the search invariant and closure are kept |
| Traversal.Bfs2 | funciones.py:35-51 | the component starts with the root and has no duplicates; `visit` only gains the component; vertices visited on entry, other than the root, are excluded; the component is exactly the vertices reachable from the root through vertices not visited on entry |
| Traversal.Bfs | funciones.py:10-32 | the returned map marks exactly the returned component; the component starts with the root, has no duplicates, and is exactly the vertices reachable from the root |
| Spanning.WeightOr1 | funciones.py:67 | `.get("weight", 1)`: the edge's weight when it has one, 1 otherwise |
| Spanning.Precedes | funciones.py:68 | the priority queue's order on `(peso, u, v)` tuples: a lighter candidate always precedes, and a preceding one is never heavier |
| Spanning.PrecedesTotal | funciones.py:72 | that tuple order is total, antisymmetric and transitive, so the least queued candidate is unique |
| Spanning.ExtractMin | funciones.py:72 | `q.get()` returns a queued candidate that is least in (weight, u, v) order and removes exactly one copy of it |
| Spanning.PushedSound | funciones.py:80-83 | each candidate queued for v is a graph edge from v to a vertex outside the tree, weighted with the edge weight or 1 when absent |
| Spanning.PushedComplete | funciones.py:80-83 | every arc of v to a vertex outside the tree has its candidate queued |
| Spanning.PushArcs | funciones.py:80-83 | the queued candidates are the arcs of v to vertices outside the tree, in neighbour order, weighted with the edge weight or 1 when absent; every arc of v leading outside the tree is queued |
| Spanning.OrderedGrows | funciones.py:74-77 | appending an edge from the tree to a vertex outside it keeps every edge joining an earlier tree vertex to a new one |
| Spanning.TreeGrows | funciones.py:74-77 | adding a graph edge from the tree to a new vertex keeps the tree shape: one edge per added vertex, every tree vertex reachable from the start |
| Spanning.DiscardStale | funciones.py:74 | popping a candidate whose end is already in the tree keeps the loop invariant, including that every arc leaving the tree is still queued |
| Spanning.LightestFromQueue | funciones.py:72-77 | the least queued candidate, when every arc leaving the tree is queued, weighs no more than any edge leaving the tree |
| Spanning.GreedyGrows | funciones.py:74-77 | appending a lightest edge leaving the current tree keeps every tree edge a lightest edge leaving the tree built before it |
| Spanning.AcceptFresh | funciones.py:72-83 | accepting the least candidate when its end is new, then queueing the arcs of that end, keeps the loop invariant with the edge appended and its weight added; the appended edge is a lightest edge leaving the tree |
| Spanning.Absorb | funciones.py:72-83 | for the least queued candidate: a stale one changes only the queue; a fresh one adds its end to `Vt`, itself to `Et` and its weight to the total, and queues the new vertex's outside arcs; the loop invariant is kept |
| Spanning.Prim | funciones.py:54-85 | the total is the sum of the tree edge weights; the tree has one edge per vertex besides the start; it has at most n vertices; its vertices are exactly those reachable from the start; each tree edge, when added, weighed no more than any edge leaving the tree built so far |
| ShortestPaths.Shorter | funciones.py:114 | Python's `<` with `math.inf`: only a finite distance is shorter; a finite one is shorter than infinity; two finite ones compare as numbers |
| ShortestPaths.Nodes | funciones.py:90 | `list(self.grafo.nodes)`: n entries, entry i being vertex i |
| ShortestPaths.SelectMin | funciones.py:108-120 | -1 exactly when every unvisited vertex is at infinite distance; otherwise the first unvisited vertex of least finite distance |
| ShortestPaths.RelaxStep | funciones.py:127-146 | handling one edge extends the relaxation pass: each entry is unchanged or is an unvisited neighbour improved through the current vertex |
| ShortestPaths.RelaxAll | funciones.py:127-146 | after the pass over all edges, every changed entry is an unvisited neighbour whose distance strictly improved through the current vertex, which became its predecessor; every neighbour is now at finite distance, and an unvisited one at most the current distance plus the edge weight; visited entries are unchanged |
| ShortestPaths.RoundReach | funciones.py:142-146 | relaxation gives finite distances only to vertices reachable from the source |
| ShortestPaths.RoundLinks | funciones.py:142-146 | after relaxation every predecessor link still matches the distances and points to a visited vertex selected in an earlier round |
| ShortestPaths.RoundSettles | funciones.py:123-146 | every neighbour of a visited vertex is at finite distance, and an unvisited one at most the visited vertex's distance plus the edge weight |
| ShortestPaths.RoundFlags | funciones.py:114-146 | after a round, distances are finite exactly at the source and the vertices with a predecessor, visited vertices were selected in this or an earlier round, and the source keeps distance 0, no predecessor and its flag |
| ShortestPaths.RoundKeeps | funciones.py:108-146 | selecting a vertex and relaxing from it keeps the distance/predecessor invariant one round further on |
| ShortestPaths.PrefixWeight | funciones.py:142 | with non-negative weights, a walk weighs at least as much as any of its prefixes |
| ShortestPaths.EdgeBound | funciones.py:142-144 | an unvisited neighbour of a visited vertex is within that vertex's distance plus the edge weight |
| ShortestPaths.StepBound | funciones.py:108-146 | where a walk from the source first leaves the visited vertices, the vertex it steps onto is at a distance no more than the walk's weight |
| ShortestPaths.SelectedIsShortest | funciones.py:108-123 | the vertex the scan selects holds its shortest distance: no walk from the source to it weighs less |
| ShortestPaths.RoundOptimal | funciones.py:123-146 | after relaxation every visited vertex, the newly selected one included, still holds its shortest distance |
| ShortestPaths.RoundsStep | funciones.py:108-146 | a whole round keeps the loop invariant, with one more vertex visited |
| ShortestPaths.Complete | funciones.py:119-120 | when no unvisited vertex is at finite distance, distances are finite exactly at the vertices reachable from the source |
| ShortestPaths.Start | funciones.py:94-105 | the initial lists satisfy the loop invariant with nothing visited |
| ShortestPaths.AllShortest | funciones.py:108-148 | once every vertex at finite distance is visited, every vertex holds its shortest distance |
| ShortestPaths.RanksLinks | funciones.py:123-146 | round numbers that decrease along every predecessor link rank every vertex of the table, so each walk back ends |
| ShortestPaths.Finish | funciones.py:108-148 | after n rounds, or on the early exit, the lists form the finished table |
| ShortestPaths.Visit | funciones.py:123-146 | marking the selected nearest unvisited vertex sets exactly its flag; the new distances and predecessors are the old ones relaxed through it (`Relaxed`); the round is complete, one more vertex visited |
| ShortestPaths.Round | funciones.py:108-146 | a round that finds no unvisited vertex at finite distance leaves the three lists unchanged, and every unvisited vertex is then at infinity; otherwise it selects the first unvisited vertex k of least finite distance (a later vertex at the same distance is never chosen), sets exactly k's flag, relaxes the table through k, records k as selected in this round, and keeps the invariant |
| ShortestPaths.Dijkstra | funciones.py:89-148 | an unknown source gives the `(None, None, None)` result. Otherwise the node list is returned, and the table has: the source at 0 without predecessor; every predecessor link with `dist[j] = dist[pad[j]] + weight`; every non-source vertex without predecessor at infinity; finite distances exactly at the reachable vertices; no walk from the source weighing less than a vertex's distance; no predecessor cycles |
| ShortestPaths.PathFromTable | funciones.py:151-164 | on dijkstra's table, the walk back from x starts at the source exactly when x is reachable; it is then a walk of the graph whose weight is x's distance; an unreachable x walks back to `[x]` |
| ShortestPaths.ShortestFromTable | funciones.py:151-164 | on dijkstra's table, the walk back from a reachable vertex is a shortest walk from the source: it weighs the vertex's distance and no walk weighs less |
| ShortestPaths.OriginCheckOnTable | Lab2-Datos2-main/funciones.py:137-150 | on dijkstra's table, the walk back from x starts at the origin exactly when x is reachable and the origin is the source, or x is unreachable and is the origin itself |
| Paths.AncestryIsChain | funciones.py:157-164 | the walk back from v starts at a vertex without predecessor, ends at v, and each element is the predecessor of the next |
| Paths.ChainIsAncestry | funciones.py:157-164 | any such chain ending at v is the walk back from v |
| Paths.ReconstructByIndex | funciones.py:151-164 | `[]` when the origin or the destination is not a node; otherwise the walk back from the destination, a predecessor chain ending there |
| Paths.ReconstructByMap | Lab2-Datos2-main/funciones.py:137-150 | the walk back from the destination when it starts at the origin, `[]` otherwise; a non-empty result starts at the origin, ends at the destination, and each element is the predecessor of the next |

Two consequences follow from `ShortestPaths.PathFromTable` and
`Paths.ReconstructByIndex`:

- The `funciones.py` version of `reconstruir_camino` does not compare the walk's
  start with the origin. For a destination that the source cannot reach, it
  returns `[destino]`, not `[]`.
- The `Lab2-Datos2-main` version does compare (`ShortestPaths.OriginCheckOnTable`).
  On dijkstra's table it returns the walk when the origin is the source and the
  destination is reachable. It also returns `[destino]` when the destination is
  unreachable and equal to the origin. Otherwise it returns `[]`.

## Left out

- Lab2.py as a whole is not part of this model: CSV loading, the command line,
  haversine weights, graph construction and map rendering. Only its
  no-self-loop and no-parallel-edge rules survive, as `ValidGraph`.
- Floating-point weights and `math.inf`: weights are natural numbers, and
  infinity is the `Inf` case of `Dist`.
- Locking inside `queue.PriorityQueue`: the queue is a sequence with a
  least-element extraction.
- Ties between candidates of equal weight: the source breaks them by comparing
  vertex names, and the model compares vertex indices.
- The message printed by `dijkstra` for an unknown source: only the
  `NoSuchSource` result is modelled.
- Bfs, Bfs2, Prim: they require the root to be a vertex. On an unknown root,
  `recorridoBFS` and `recorridoBFS2` first add it to `visit`, and then
  `self.grafo.neighbors` raises the graph library's `NetworkXError`; `prim`
  raises the same error from its first `neighbors` call.
- Dijkstra: requires every edge to carry a weight. The source reads
  `['weight']` only for edges that touch a selected vertex, and raises KeyError
  when such an edge has none; edges never reached are not looked up.
- Paths.ReconstructByMap: requires the destination to be a key of `prev`, as the
  source would raise KeyError otherwise.
- Paths.ReconstructByIndex, Paths.ReconstructByMap: they require a ghost rank
  that decreases along the destination's chain of predecessors. When that chain
  runs into a cycle the source never returns, and those runs are not modelled.
  The rank also requires every predecessor on the chain to be a key. A chain
  that reaches a predecessor which is not a key is excluded too: the source
  raises KeyError at `prev[actual]` in the map version, and ValueError from
  `nodos.index(actual)` in the list version.
- Spanning.Prim: it also returns `Et` and `Vt` so that its contract can speak of
  the tree. The greedy (cut) property of each edge is proved, but the exchange
  argument that the whole tree has minimum weight is not.
- `nodos.index` and `list(self.grafo.nodes)`: vertices are their own indices, so
  the lookup is the identity. Paths.ReconstructByIndex accordingly takes no `nodos`
  argument: the node list it checks and indexes is taken to be the identity list
  `0 .. |pad|-1`, the one dijkstra returns (`ShortestPaths.Nodes`). A caller
  passing any other `nodos` list is not modelled.
