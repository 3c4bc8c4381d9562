/** Dijkstra's calculator run on the adjacency graph: the graph's answers to
    "which edges are at this node" meet every condition under which the
    calculator's shortest-path results are proved. */
module AdjacencyPaths {
  import opened Graphs
  import opened AdjacencyGraphs
  import opened Dijkstra

  /** A calculator built from an adjacency graph, asking it for the edges at
      each of its nodes, sees only edges between nodes of the graph, each
      turned to start at the node it is reported at. */
  lemma AdjacencyGraphIsOutgoing<N>(g: AdjacencyGraph<N>, c: DijkstraPathCalculator<N>)
    requires g.Valid()
    requires c.nodes == g.nodes && c.adjacent == map n | n in g.nodes :: g.GetAdjacentEdges(n)
    ensures c.GraphValid() && c.Outgoing()
  {
  }
}
