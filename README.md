# Graph library P3: representations and solvers, in Dafny

This project models the core of a small Java graph library. It covers five parts. The contracts state what each operation does, and lemmas state the properties the code and its documentation promise. Where a proof stops short of a promise, "Left out" says so.

- **An adjacency matrix.** It is a square, symmetric `int[][]`. Writing an edge sets both of its cells; reading gives one cell; asking for a row gives a fresh copy.
- **An immutable adjacency graph.** It numbers its nodes with dense indices `0 .. n-1` and keeps the inverse map. It writes every edge into a matrix, then rebuilds the edges at a node by scanning that node's row for non-zero cells.
- **An immutable map-backed graph.** It precomputes, for each node, a set of edges. Asking for an unknown node is reported as "node not found".
- **Dijkstra's shortest-path calculator.** It keeps three mutable fields: distances, predecessors and remaining nodes. It resets them, repeatedly takes the remaining node of least distance and relaxes the edges the graph reports at it, and finally rebuilds the path by walking predecessor links back from the target.
- **Kruskal's minimum-spanning-tree calculator.** It keeps a list of disjoint node groups. It scans the edges in sorted order, rejects an edge whose endpoints already share a group, and otherwise merges the smaller group into the larger one.

Files, one module each:

| file | module | form |
|---|---|---|
| `graphs.dfy` | `Graphs` | shared values: Java `int` (`int32`, `Add32`), `Edge`, `Graph`, `Option`, `Result`, an arbitrary iteration order of a set (`Enumerate`) |
| `adjacency_matrix.dfy` | `Matrix` | class over an `array2<int32>`, written in place |
| `adjacency_graph.dfy` | `AdjacencyGraphs` | class with an imperative constructor (loops over the node and edge sets) and pure queries |
| `basic_graph.dfy` | `BasicGraphs` | datatype and functions |
| `dijkstra.dfy` | `Dijkstra` | class whose methods update the three fields; relaxation is proved against the pure `RelaxStep` |
| `kruskal.dfy` | `Kruskal` | class over a `set` of edges and a `seq<set<N>>` of groups; joining is proved against the pure `Joined` |
| `adjacency_paths.dfy` | `AdjacencyPaths` | lemma: the adjacency graph meets the condition of the shortest-path proof |

Hash-set iteration order is left open throughout. Each loop over a set picks an arbitrary remaining element (`:|`). The order chosen decides several things the source leaves to the hash set:

- which index each node gets;
- which write wins when two edges share a pair of nodes;
- how ties are broken in the minimum extraction.

All of these are proved for every order.

The source and its documentation differ in places, and the model follows the source. There is one exception: the main Dijkstra run computes distances in exact integers, and the code's 32-bit sum is modelled separately (see Findings).

- The map-backed graph's documentation promises "edges adjacent to each node". The code compares the endpoints with the whole node set (see Findings).
- The Dijkstra documentation promises a path starting at `start`. In exact arithmetic the code returns `[end]` when `end` was never reached, or is not a node; there is no "no path" error. With the 32-bit sum, an unreached `end` can instead make the path reconstruction loop forever (see Findings).
- Dijkstra relaxes each reported edge only from its first endpoint to its second (`relax(x.a(), x.b(), x)`), not in both directions.
- In the adjacency graph, weight 0 means "no edge". An edge of weight 0 is stored but never reported as adjacent.

## Model

| member | source | states |
|---|---|---|
| Graphs.Add32 | src/main/java/p3/solver/DijkstraPathCalculator.java:117 | Java `int` addition: the exact sum when it fits in 32 bits, otherwise the sum shifted by 2^32 back into range |
| Graphs.Enumerate | src/main/java/p3/solver/DijkstraPathCalculator.java:104 | a stream over a hash set visits every element exactly once and nothing else, in an order left open |
| Matrix.AdjacencyMatrix.constructor | src/main/java/p3/graph/AdjacencyMatrix.java:25-27 | a new matrix is `size` x `size`, symmetric, with every cell 0 |
| Matrix.AdjacencyMatrix.AddEdge | src/main/java/p3/graph/AdjacencyMatrix.java:36-39 | both cells (a, b) and (b, a) hold the weight, every other cell is unchanged, and symmetry is kept |
| Matrix.AdjacencyMatrix.GetWeight | src/main/java/p3/graph/AdjacencyMatrix.java:48-51 | the stored weight of (a, b) equals cell (b, a), so the weight is the same in both directions; indices must lie in range |
| Matrix.AdjacencyMatrix.GetAdjacent | src/main/java/p3/graph/AdjacencyMatrix.java:59-62 | the result is a freshly allocated array of length `size` equal to row `index`, so it cannot alias the matrix |
| AdjacencyGraphs.NumberNodes | src/main/java/p3/graph/AdjacencyGraph.java:64-66 | each node gets a distinct index, and the indices used are exactly 0 .. \|nodes\|-1, one per node |
| AdjacencyGraphs.IndexNodes | src/main/java/p3/graph/AdjacencyGraph.java:64-68 | the index map and the map built from it are exact inverses over the nodes and the range [0, \|nodes\|) |
| AdjacencyGraphs.WriteEdges | src/main/java/p3/graph/AdjacencyGraph.java:70 | after the writes the matrix is symmetric, and each cell holds the weight of the last edge written across that pair of nodes (0 if none) |
| AdjacencyGraphs.Written | src/main/java/p3/graph/AdjacencyGraph.java:64-70 | the value of a cell after the edges are written in order into a zero matrix, each into both of its cells: the last edge across that pair of nodes decides it, and a cell no edge touches stays 0 |
| AdjacencyGraphs.WrittenHasWriter | src/main/java/p3/graph/AdjacencyGraph.java:70 | a non-zero cell was written by an edge between those two nodes, with exactly that weight |
| AdjacencyGraphs.WrittenSingleWeight | src/main/java/p3/graph/AdjacencyGraph.java:70 | when every edge written across a pair of nodes has the same weight, the cell holds that weight |
| AdjacencyGraphs.AdjacencyGraph.constructor | src/main/java/p3/graph/AdjacencyGraph.java:54-71 | builds a matrix of size \|nodes\|, an index bijection, and a matrix whose cells are the writes of every edge; the node and edge sets are kept |
| AdjacencyGraphs.AdjacencyGraph.GetNodes | src/main/java/p3/graph/AdjacencyGraph.java:73-76 | the node set is the domain of the index map and has one node per matrix row |
| AdjacencyGraphs.AdjacencyGraph.GetEdges | src/main/java/p3/graph/AdjacencyGraph.java:78-81 | every edge joins two indexed nodes |
| AdjacencyGraphs.AdjacencyGraph.GetAdjacentEdges | src/main/java/p3/graph/AdjacencyGraph.java:83-89 | each returned edge starts at `node`, ends at a node, and carries the non-zero weight stored for the pair; every node whose cell is non-zero yields such an edge; on a graph without nodes the result is empty for any node |
| AdjacencyGraphs.AdjacencyGraph.ToGraph | src/main/java/p3/graph/AdjacencyGraph.java:96-99 | the graph view has the same node and edge sets, and every edge joins two of its nodes |
| AdjacencyGraphs.IncidentEdgeIsAdjacent | src/main/java/p3/graph/AdjacencyGraph.java:70-88 | without parallel edges, every non-zero edge of the graph at `node`, in either orientation, is returned turned to start at `node` |
| AdjacencyGraphs.AdjacentEdgeIsIncident | src/main/java/p3/graph/AdjacencyGraph.java:88 | every returned edge starts at `node`, has a non-zero weight, and is an edge of the graph with that weight in one orientation |
| AdjacencyGraphs.AdjacentEdgesAreIncidentEdges | src/main/java/p3/graph/AdjacencyGraph.java:70-88 | without parallel edges, an edge is returned at `node` if and only if it is a non-zero edge of the graph at `node`, turned to start there |
| BasicGraphs.BasicGraph.GetNodes | src/main/java/p3/graph/BasicGraph.java:60-63 | the node set is exactly the key set of the backing map |
| BasicGraphs.BasicGraph.GetEdges | src/main/java/p3/graph/BasicGraph.java:65-68 | every stored per-node set is a subset of the edge set |
| BasicGraphs.BasicGraph.GetAdjacentEdges | src/main/java/p3/graph/BasicGraph.java:70-77 | succeeds if and only if the node is a key, with its stored set; otherwise fails with "node not found" for that node |
| BasicGraphs.BasicGraph.ToGraph | src/main/java/p3/graph/BasicGraph.java:84-87 | the graph view has the key set as nodes and the same edges |
| BasicGraphs.NewAsWritten | src/main/java/p3/graph/BasicGraph.java:48-58 | the constructor as written: keys are exactly the nodes, each stored set is drawn from the edges, and the sets given are kept |
| BasicGraphs.AsWrittenIgnoresNode | src/main/java/p3/graph/BasicGraph.java:57 | as written, every node gets the same stored set, and that set is empty for node types whose values never equal a set |
| BasicGraphs.AsWrittenMissesIncidentEdge | src/main/java/p3/graph/BasicGraph.java:57 | as written, node 1 of the graph {1, 2} with edge (1, 2, 5) is reported with no edges |
| BasicGraphs.New | src/main/java/p3/graph/BasicGraph.java:48-58 | the constructor as intended: for every node and edge, the edge is stored at the node if and only if the node is one of its endpoints |
| BasicGraphs.AdjacentEdgesAreIncidentEdges | src/main/java/p3/graph/BasicGraph.java:48-77 | with the intended constructor, the lookup of a node of the graph succeeds with exactly the graph's edges that have it as an endpoint, and any other node is not found |
| BasicGraphs.Empty | src/main/java/p3/graph/BasicGraph.java:38-40 | the no-argument constructor gives no nodes, no edges and an empty backing map |
| Dijkstra.InitialRun | src/main/java/p3/solver/DijkstraPathCalculator.java:81-93 | the reset state: distances and predecessors for exactly the nodes, `start` at 0, every other node at `Integer.MAX_VALUE`, every predecessor null |
| Dijkstra.InitialRunRanked | src/main/java/p3/solver/DijkstraPathCalculator.java:90 | the reset state has no predecessor links, so it starts the acyclicity ranking |
| Dijkstra.Improves | src/main/java/p3/solver/DijkstraPathCalculator.java:117 | the test of `relax`, as an exact-arithmetic comparison (the 32-bit sum is `RelaxAsWritten`): `from`'s distance plus the weight is strictly below `to`'s; a non-negative edge never improves a node already within that reach, and improves only a node farther than its source |
| Dijkstra.RelaxStep | src/main/java/p3/solver/DijkstraPathCalculator.java:115-123 | on a strict improvement, `to` gets `from`'s distance plus the weight and `from` as predecessor; otherwise nothing changes; no distance grows and no other node changes |
| Dijkstra.RelaxStepKeepsRanked | src/main/java/p3/solver/DijkstraPathCalculator.java:117-121 | with a non-negative weight, a relaxation keeps every predecessor link pointing to a closer node, or to an equally close node with an older link, so no cycle can form |
| Dijkstra.RelaxStepKeepsInvariants | src/main/java/p3/solver/DijkstraPathCalculator.java:117-121 | a relaxation with a non-negative weight keeps distances in [0, `MAX_VALUE`] for exactly the nodes, keeps unlinked nodes at their reset distance, and keeps the ranking |
| Dijkstra.RelaxAll | src/main/java/p3/solver/DijkstraPathCalculator.java:69 | relaxing a sequence of edges one after another, each from its first endpoint to its second: the same nodes keep distances, no distance grows, and each edge's second endpoint ends no farther than its first endpoint was before plus the weight |
| Dijkstra.RelaxAllNext | src/main/java/p3/solver/DijkstraPathCalculator.java:69 | relaxing one more edge of the sequence is one relaxation step after the ones before it |
| Dijkstra.RelaxAllFrom | src/main/java/p3/solver/DijkstraPathCalculator.java:115-123 | when every edge starts at `from` and has a non-negative weight, `from` keeps its distance, and every changed distance is at least `from`'s |
| Dijkstra.EnumeratedBound | src/main/java/p3/solver/DijkstraPathCalculator.java:69 | relaxing an order that lists every edge of a set brings each edge's second endpoint within its first endpoint's old distance plus the weight |
| Dijkstra.VisitKeepsSettled | src/main/java/p3/solver/DijkstraPathCalculator.java:65-70 | visiting a remaining node of least distance keeps Dijkstra's invariant: visited nodes are no farther than remaining ones, their distances no longer change, and no edge reported at a visited node can lower a distance |
| Dijkstra.RelaxStepLinks | src/main/java/p3/solver/DijkstraPathCalculator.java:115-123 | relaxing one more edge leading away from `from` leaves every node as it was or linked to `from` through a reported edge whose weight makes up the distance step |
| Dijkstra.RelaxAllLinks | src/main/java/p3/solver/DijkstraPathCalculator.java:69 | after relaxing all edges reported at `from`, each node is as it was or linked to `from` through one of them, at `from`'s distance plus its weight |
| Dijkstra.VisitKeepsAttained | src/main/java/p3/solver/DijkstraPathCalculator.java:65-70 | a round keeps every predecessor link accounted for by a reported edge and every predecessor visited |
| Dijkstra.RoundKeepsProgress | src/main/java/p3/solver/DijkstraPathCalculator.java:65-70 | a round at a remaining node of least distance keeps the main loop's invariant: visited nodes settled, links accounted for, predecessors visited |
| Dijkstra.ProgressDone | src/main/java/p3/solver/DijkstraPathCalculator.java:65 | when no node remains, no reported edge can lower a distance and every link is accounted for |
| Dijkstra.ChainWalk | src/main/java/p3/solver/DijkstraPathCalculator.java:137-141 | a chain of accounted-for predecessor links is a walk along reported edges whose length is the distance gained from its first node to its last |
| Dijkstra.PathAttains | src/main/java/p3/solver/DijkstraPathCalculator.java:133-144 | the reconstructed path from `start` follows reported edges that add up to exactly the distance of its last node |
| Dijkstra.WalkStaysIn | src/main/java/p3/solver/DijkstraPathCalculator.java:69 | a walk along reported edges from a node of the graph stays among the graph's nodes |
| Dijkstra.NoShorterWalk | src/main/java/p3/solver/DijkstraPathCalculator.java:115-123 | when no reported edge can lower a distance and `start` is at 0, a walk's last node is at most the walk's length away |
| Dijkstra.NoShorterWalkFrom | src/main/java/p3/solver/DijkstraPathCalculator.java:62-72 | in that state, every walk from `start` ends at a node whose distance is at most the walk's length |
| Dijkstra.Lookup | src/main/java/p3/solver/DijkstraPathCalculator.java:141 | `predecessors.get(x)`: a node with a predecessor gives exactly its stored entry, and a node absent from the map reads as no predecessor, like one mapped to `null` |
| Dijkstra.Reversed | src/main/java/p3/solver/DijkstraPathCalculator.java:142 | `Collections.reverse`: same length, element k is element n-1-k of the input |
| Dijkstra.DijkstraPathCalculator.constructor | src/main/java/p3/solver/DijkstraPathCalculator.java:45-47 | keeps the graph, with empty distance, predecessor and remaining-node collections |
| Dijkstra.DijkstraPathCalculator.ResetDistances | src/main/java/p3/solver/DijkstraPathCalculator.java:88 | the loop fills exactly the reset distances |
| Dijkstra.DijkstraPathCalculator.ResetPredecessors | src/main/java/p3/solver/DijkstraPathCalculator.java:90 | the loop maps exactly the nodes, each to no predecessor |
| Dijkstra.DijkstraPathCalculator.Init | src/main/java/p3/solver/DijkstraPathCalculator.java:81-93 | the state becomes the reset state, every node remains, and the run's invariants hold |
| Dijkstra.DijkstraPathCalculator.ExtractMin | src/main/java/p3/solver/DijkstraPathCalculator.java:101-105 | on a non-empty listing of the remaining nodes, returns one of them whose distance is at most that of every other |
| Dijkstra.DijkstraPathCalculator.Relax | src/main/java/p3/solver/DijkstraPathCalculator.java:115-123 | the new distances and predecessors are exactly one relaxation step of the old ones |
| Dijkstra.DijkstraPathCalculator.RelaxInOrder | src/main/java/p3/solver/DijkstraPathCalculator.java:69 | the new state is exactly the relaxation of the given edges, in order, each from its first endpoint to its second, and the invariants hold |
| Dijkstra.DijkstraPathCalculator.RelaxEdges | src/main/java/p3/solver/DijkstraPathCalculator.java:69 | the new state is the relaxation, in some iteration order of the set, of every edge reported at the node, each from its first endpoint to its second; each edge's second endpoint ends within its first endpoint's old distance plus the weight; no distance grows; when the edges all start at the node, no changed distance drops below the node's |
| Dijkstra.DijkstraPathCalculator.TakeMin | src/main/java/p3/solver/DijkstraPathCalculator.java:101-105 | removes exactly one remaining node, one whose distance is at most that of every remaining node |
| Dijkstra.DijkstraPathCalculator.VisitNext | src/main/java/p3/solver/DijkstraPathCalculator.java:65-70 | one round removes exactly one remaining node, one of least distance, then relaxes every edge reported at it from first endpoint to second, with the bounds stated for RelaxEdges; when every reported edge starts at the node it is reported at, it keeps the main loop's invariant |
| Dijkstra.DijkstraPathCalculator.Explore | src/main/java/p3/solver/DijkstraPathCalculator.java:63-70 | the main loop ends with no node remaining after exactly \|nodes\| rounds, with the invariants kept; when every reported edge starts at the node it is reported at, no reported edge can then lower any distance and every predecessor link is accounted for by a reported edge |
| Dijkstra.DijkstraPathCalculator.ReconstructPath | src/main/java/p3/solver/DijkstraPathCalculator.java:133-144 | the walk ends; the path ends at `end`, each node is the predecessor of the next, and the first has none; it starts at `start` when `end` was reached and is `[end]` otherwise |
| Dijkstra.DijkstraPathCalculator.CalculatePath | src/main/java/p3/solver/DijkstraPathCalculator.java:62-72 | with non-negative weights, every node is visited; the path ends at `end`, follows predecessor links back to a node without one, starts at `start` when `end` was reached, and is `[end]` otherwise; when every reported edge starts at the node it is reported at, the path is a shortest path: for a reached `end` its reported edges add up to exactly `end`'s distance, and no walk from `start` is shorter than the distance of the node it reaches |
| AdjacencyPaths.AdjacencyGraphIsOutgoing | src/main/java/p3/graph/AdjacencyGraph.java:83-89 | a calculator that asks the adjacency graph for the edges at each node sees only edges between nodes of the graph, each starting at the node it is reported at, so the shortest-path results of `CalculatePath` apply to the adjacency graph |
| Dijkstra.RelaxAsWritten | src/main/java/p3/solver/DijkstraPathCalculator.java:115-123 | the relaxation as written, in 32-bit arithmetic: from a node at `MAX_VALUE` a positive weight wraps to a negative distance that counts as an improvement |
| Dijkstra.WrappedRelaxClosesCycle | src/main/java/p3/solver/DijkstraPathCalculator.java:117-121 | as written, on nodes {0, 1, 2} with the edge (1, 2, 1) reported at both ends, 1 and 2 become each other's predecessors |
| Dijkstra.WrappedWalkNeverEnds | src/main/java/p3/solver/DijkstraPathCalculator.java:139-141 | with those predecessors, the walk back from node 1 alternates between 1 and 2 forever |
| Dijkstra.UnreachedNeverImproves | src/main/java/p3/solver/DijkstraPathCalculator.java:117 | in exact arithmetic, a node still at `MAX_VALUE` never improves another through a non-negative weight |
| Kruskal.UnionMembers | src/main/java/p3/solver/KruskalMSTCalculator.java:33-38 | a node belongs to the groups' union exactly when some group holds it |
| Kruskal.SameGroup | src/main/java/p3/solver/KruskalMSTCalculator.java:80 | the test `filter(contains a).anyMatch(contains b)`: some group holds both nodes; when the groups are disjoint, every group holding the first node then holds the second |
| Kruskal.GroupIndex | src/main/java/p3/solver/KruskalMSTCalculator.java:81 | the index of the first group that holds the node |
| Kruskal.Joined | src/main/java/p3/solver/KruskalMSTCalculator.java:93-98 | joining two groups leaves one group fewer |
| Kruskal.JoinedGroups | src/main/java/p3/solver/KruskalMSTCalculator.java:93-98 | after joining, each group is either the union of the two joined groups or one of the other groups, in its old order |
| Kruskal.TargetAfter | src/main/java/p3/solver/KruskalMSTCalculator.java:94-96 | the joined list holds the union of the two groups at a definite index |
| Kruskal.OtherAfter | src/main/java/p3/solver/KruskalMSTCalculator.java:97 | every group other than the two joined ones is still in the list, unchanged |
| Kruskal.JoinedKeepsDisjoint | src/main/java/p3/solver/KruskalMSTCalculator.java:33-38 | joining two different groups keeps the groups disjoint and non-empty |
| Kruskal.JoinedMember | src/main/java/p3/solver/KruskalMSTCalculator.java:93-98 | a node is in some group after joining if and only if it was in some group before |
| Kruskal.JoinedKeepsUnion | src/main/java/p3/solver/KruskalMSTCalculator.java:93-98 | joining keeps the set of all grouped nodes |
| Kruskal.JoinedSameGroup | src/main/java/p3/solver/KruskalMSTCalculator.java:80-82 | after joining, two nodes share a group if and only if they did before or both lie in the two joined groups |
| Kruskal.JoinedKeepsPartition | src/main/java/p3/solver/KruskalMSTCalculator.java:33-38 | joining two different groups of a partition of the nodes leaves a partition with one group fewer |
| Kruskal.ConnectedTrans | src/main/java/p3/solver/KruskalMSTCalculator.java:35 | a walk of accepted edges from x to y and one from y to z give one from x to z |
| Kruskal.ConnectedByEdge | src/main/java/p3/solver/KruskalMSTCalculator.java:35 | an accepted edge connects its two ends, in both directions |
| Kruskal.ConnectedGrows | src/main/java/p3/solver/KruskalMSTCalculator.java:35 | accepting another edge keeps every connection |
| Kruskal.JoinedKeepsSpanned | src/main/java/p3/solver/KruskalMSTCalculator.java:35 | accepting an edge between two groups and joining them keeps the documented invariant: two nodes of one group are connected by accepted edges |
| Kruskal.Scan | src/main/java/p3/solver/KruskalMSTCalculator.java:52-54 | the reference scan: each edge in turn is skipped when one group holds both endpoints and otherwise kept with the two groups joined; it keeps the set of grouped nodes and the edges kept before, adds only edges of the sequence, and every edge it adds costs one group |
| Kruskal.ScanUnfold | src/main/java/p3/solver/KruskalMSTCalculator.java:52-54 | the scan skips its first edge when the endpoints share a group, and otherwise accepts it and joins the endpoints' two different groups |
| Kruskal.Singletons | src/main/java/p3/solver/KruskalMSTCalculator.java:67 | one group of one node per node: a partition of the nodes into \|nodes\| groups |
| Kruskal.SingletonsSeparate | src/main/java/p3/solver/KruskalMSTCalculator.java:58-68 | in that partition, two nodes share a group exactly when they are the same node |
| Kruskal.SingletonsSpanned | src/main/java/p3/solver/KruskalMSTCalculator.java:35 | groups of one node each satisfy the documented invariant with no accepted edges |
| Kruskal.KruskalMSTCalculator.constructor | src/main/java/p3/solver/KruskalMSTCalculator.java:44-48 | keeps the graph, with no edges and no groups |
| Kruskal.KruskalMSTCalculator.Init | src/main/java/p3/solver/KruskalMSTCalculator.java:62-68 | no accepted edges, and one single-node group per node, forming a partition that satisfies the invariant |
| Kruskal.KruskalMSTCalculator.JoinGroups | src/main/java/p3/solver/KruskalMSTCalculator.java:93-98 | adding the smaller group's members one by one to the larger and removing the smaller gives exactly the joined list |
| Kruskal.KruskalMSTCalculator.AcceptEdge | src/main/java/p3/solver/KruskalMSTCalculator.java:79-83 | accepts if and only if no group holds both endpoints; a rejection changes nothing; an acceptance joins the endpoints' groups |
| Kruskal.KruskalMSTCalculator.Consider | src/main/java/p3/solver/KruskalMSTCalculator.java:52-54 | one scan step: when the endpoints already share a group nothing changes; otherwise the edge is added and their groups are joined. It keeps the invariant (partition, accepted edges inside groups, \|mstEdges\| + \|mstGroups\| == \|nodes\|, two nodes of one group connected by accepted edges) and never separates two nodes |
| Kruskal.KruskalMSTCalculator.ConsiderAll | src/main/java/p3/solver/KruskalMSTCalculator.java:52-54 | considering the edges in order gives exactly the scan of them from the state before, keeps the invariant, and leaves each edge's endpoints in one group |
| Kruskal.KruskalMSTCalculator.CalculateMST | src/main/java/p3/solver/KruskalMSTCalculator.java:49-56 | the accepted edges and the final groups are exactly the scan of the sorted edges from one singleton group per node; the result has the input nodes and a subset of the input edges; edges plus groups equal the node count, so there are at most \|nodes\|-1 edges; the endpoints of every input edge are connected by accepted edges |

## Left out

- `toMutableGraph` (both graphs) and the static `FACTORY`/`EMPTY` members. They only call graph types that are not part of this model.
- `Edge`, `EdgeImpl`, `Graph`, `Graph.of`, `MutableGraph` and `SetUtils` are not part of this model. An edge is the value `Edge(a, b, weight)` with structural equality, and a graph is the pair of its node set and edge set. The immutable copies and unmodifiable views are plain values.
- Dijkstra.DijkstraPathCalculator.constructor: takes the node set and each node's reported edge set as a map, because `graph.getAdjacentEdges` belongs to the `Graph` interface, which is not part of this model.
- Kruskal.KruskalMSTCalculator.CalculateMST: takes the sorted edge sequence as a parameter, because `Edge::compareTo` is not part of this model. The parameter is required to list each edge exactly once, but its order is not constrained. Minimality of the resulting forest is therefore not stated. What is proved is that the accepted edges connect the endpoints of every edge of the graph, and that their number plus the number of groups equals the node count. That the accepted edges contain no cycle follows from these two facts, but it is not stated as a lemma.
- Dijkstra.DijkstraPathCalculator.CalculatePath: requires non-negative weights. That the path is a shortest one (its edges add up to the distance found, and no walk is shorter) is proved only for graphs whose reported edges all start at the node they are reported at. The adjacency graph is such a graph (`AdjacencyPaths.AdjacencyGraphIsOutgoing`). The intended map-backed graph also reports edges that end at the node, and those are then relaxed towards it. With a negative weight the code may not return at all: on the adjacency graph with nodes {1, 2}, edge (1, 2, -1) and start 1, visiting 1 gives 2 distance -1 with predecessor 1, visiting 2 relaxes the reported edge (2, 1, -1) to -2 < 0 and makes 2 the predecessor of 1, and for end 1 or 2 `reconstructPath` then walks 2, 1, 2, … until the list exhausts memory.
- Dijkstra.DijkstraPathCalculator.Explore: states its certificate under the same condition on the reported edges.
- Dijkstra.DijkstraPathCalculator.VisitNext: states the loop invariant under the same condition on the reported edges.
- Dijkstra.DijkstraPathCalculator.Relax: uses exact integers, which is the intended arithmetic. The 32-bit wrap-around of the code is modelled separately by `Dijkstra.RelaxAsWritten` (see Findings).
- Dijkstra.DijkstraPathCalculator.VisitNext: omits the `remainingNodes.remove` check and its `IllegalStateException`. The node removed is always a remaining one, which the contract shows.
- Dijkstra.DijkstraPathCalculator.ExtractMin: requires a non-empty listing, so the "RemainingNodes is empty!" exception is not modelled. The method is called only while nodes remain.
- AdjacencyGraphs.AdjacencyGraph.GetAdjacentEdges: requires the node to be in the graph, or the graph to have no nodes. In the second case the code scans no index and returns the empty set. For an unknown node of a non-empty graph, the code fails with an unboxing `NullPointerException`, which is not modelled as a result.
- Matrix.AdjacencyMatrix.AddEdge: requires both indices below the size. Java throws `ArrayIndexOutOfBoundsException` for an index out of range, which is not modelled.
- Matrix.AdjacencyMatrix.GetWeight: requires both indices below the size. Java throws `ArrayIndexOutOfBoundsException` for an index out of range, which is not modelled.
- Matrix.AdjacencyMatrix.GetAdjacent: requires the index below the size. Java throws `ArrayIndexOutOfBoundsException` for an index out of range, which is not modelled.
- Dijkstra.DijkstraPathCalculator.Explore: requires every reported edge to join two nodes of the graph. An edge leading outside the graph makes `relax` (line 117) unbox a missing distance and throw `NullPointerException`, which is not modelled.
- Dijkstra.DijkstraPathCalculator.CalculatePath: requires every reported edge to join two nodes of the graph, for the same reason as `Explore`.
- Matrix.AdjacencyMatrix.constructor: takes a `nat` size. A negative size makes Java throw `NegativeArraySizeException`, which is not modelled.
- AdjacencyGraphs.AdjacencyGraph.constructor: requires every edge's endpoints to be nodes. Otherwise the code fails with an unboxing `NullPointerException`.
- The ghost fields `stamps`/`clock` (Dijkstra) and `writeOrder` (adjacency graph) are proof devices with no counterpart in the code.
- Kruskal.KruskalMSTCalculator.constructor: node values must not hold heap references (`N(!new)`), because connectivity quantifies over walks of nodes.
- Kruskal.KruskalMSTCalculator.JoinGroups: the groups are values, so the aliasing of the `HashSet` objects in the Java list is not modelled. It cannot be observed, because each set is owned by the list alone.
- Stream laziness, `AtomicInteger` and the exceptions thrown by `orElseThrow` in `acceptEdge` are not modelled. Those exceptions cannot occur when the endpoints are nodes.

## Findings

| source | as written | input that shows it | evidently intended | confidence | as-written member | corrected member |
|---|---|---|---|---|---|---|
| src/main/java/p3/graph/BasicGraph.java:57 | the edge filter compares each endpoint with the whole node set (`y.a().equals(nodes)`), so every node gets the same set, empty for ordinary node types | nodes {1, 2}, edge (1, 2, 5): `getAdjacentEdges(1)` is empty | each node's set holds the edges that have the node as an endpoint (`y.a().equals(node)`) | not executed | BasicGraphs.AsWrittenMissesIncidentEdge | BasicGraphs.New |
| src/main/java/p3/solver/DijkstraPathCalculator.java:117 | `distances.get(from) + edge.weight()` is a 32-bit sum; from an unreached node at `Integer.MAX_VALUE` it wraps negative and counts as an improvement, which can make two nodes each other's predecessor so that `reconstructPath` (lines 139-141) keeps adding to its list until memory runs out | the adjacency graph with nodes {0, 1, 2} and edge (1, 2, 1), which it reports at both 1 and 2; start 0, end 1 | an unreached node improves nothing, and predecessor chains end | not executed | Dijkstra.WrappedRelaxClosesCycle | Dijkstra.DijkstraPathCalculator.ReconstructPath |
