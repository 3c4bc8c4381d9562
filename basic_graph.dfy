/** The immutable graph backed by a map from each node to a precomputed set of
    edges, built once at construction. */
module BasicGraphs {
  import opened Graphs

  datatype BasicGraph<N> = BasicGraph(backing: map<N, set<Edge<N>>>, nodes: set<N>, edges: set<Edge<N>>)
  {
    /** Every node has a stored set, and every stored set is drawn from the edges. */
    ghost predicate Valid() {
      && backing.Keys == nodes
      && forall n :: n in backing ==> backing[n] <= edges
    }

    /** The node set given at construction: exactly the nodes the lookup accepts. */
    function GetNodes(): (r: set<N>)
      requires Valid()
      ensures r == backing.Keys
    {
      nodes
    }

    /** The edge set given at construction: every stored set is a subset of it. */
    function GetEdges(): (r: set<Edge<N>>)
      requires Valid()
      ensures forall n :: n in backing ==> backing[n] <= r
    {
      edges
    }

    /** The stored set for `node`; a node that is not a key is reported as not found. */
    function GetAdjacentEdges(node: N): (r: Result<set<Edge<N>>, GraphError<N>>)
      requires Valid()
      ensures r.Ok? <==> node in nodes
      ensures r.Ok? ==> r.value == backing[node] && r.value <= edges
      ensures r.Err? ==> r.error == NodeNotFound(node)
    {
      if node in backing then Ok(backing[node]) else Err(NodeNotFound(node))
    }

    /** This graph seen through the graph interface: its node set and edge set. */
    function ToGraph(): (g: Graph<N>)
      requires Valid()
      ensures g.nodes == backing.Keys && g.edges == edges
    {
      Graph(nodes, edges)
    }
  }

  /** The two-argument constructor as the code has it: each node's set is
      filtered by comparing the edge's endpoints with the whole node set rather
      than with the node itself. `equalsNodeSet(x)` is the node type's answer to
      `x.equals(nodes)`, which is outside this model (false for ordinary node types). */
  function NewAsWritten<N>(nodes: set<N>, edges: set<Edge<N>>, equalsNodeSet: N -> bool): (g: BasicGraph<N>)
    ensures g.Valid() && g.nodes == nodes && g.edges == edges
  {
    var adjacent := set y | y in edges && (equalsNodeSet(y.a) || equalsNodeSet(y.b));
    BasicGraph(map node | node in nodes :: adjacent, nodes, edges)
  }

  /** As written, the stored set does not depend on the node: every node gets the
      same set, and for a node type whose values never equal a set it is empty. */
  lemma AsWrittenIgnoresNode<N>(nodes: set<N>, edges: set<Edge<N>>, equalsNodeSet: N -> bool, n: N, m: N)
    requires n in nodes && m in nodes
    ensures NewAsWritten(nodes, edges, equalsNodeSet).GetAdjacentEdges(n) == NewAsWritten(nodes, edges, equalsNodeSet).GetAdjacentEdges(m)
    ensures (forall x :: !equalsNodeSet(x)) ==> NewAsWritten(nodes, edges, equalsNodeSet).GetAdjacentEdges(n) == Ok({})
  {
    var g := NewAsWritten(nodes, edges, equalsNodeSet);
    if forall x :: !equalsNodeSet(x) {
      assert g.backing[n] == set y | y in edges && (equalsNodeSet(y.a) || equalsNodeSet(y.b));
      assert g.backing[n] == {};
    }
  }

  /** The discrepancy on concrete values: nodes 1 and 2 joined by one edge of
      weight 5; as written, node 1 is reported with no edges at all. */
  lemma AsWrittenMissesIncidentEdge()
    ensures var g := NewAsWritten({1, 2}, {Edge(1, 2, 5)}, (x: int) => false);
            && Edge(1, 2, 5) in g.GetEdges() && Edge(1, 2, 5).a == 1
            && g.GetAdjacentEdges(1) == Ok({})
  {
    AsWrittenIgnoresNode({1, 2}, {Edge(1, 2, 5)}, (x: int) => false, 1, 1);
  }

  /** The two-argument constructor as intended: each node's set holds exactly the
      edges that have the node as an endpoint. */
  function New<N>(nodes: set<N>, edges: set<Edge<N>>): (g: BasicGraph<N>)
    ensures g.Valid() && g.nodes == nodes && g.edges == edges
    ensures forall n, e :: n in nodes && e in edges ==> (e in g.backing[n] <==> e.a == n || e.b == n)
  {
    BasicGraph(map node | node in nodes :: (set y | y in edges && (y.a == node || y.b == node)), nodes, edges)
  }

  /** The no-argument constructor: no nodes, no edges, nothing stored. */
  function Empty<N>(): (g: BasicGraph<N>)
    ensures g.Valid() && g.nodes == {} && g.edges == {} && g.backing == map[]
  {
    New({}, {})
  }

  /** With the intended constructor, the lookup for a node of the graph yields
      exactly the graph's edges at that node, whatever their weight, and any
      other node is reported as not found. */
  lemma AdjacentEdgesAreIncidentEdges<N>(nodes: set<N>, edges: set<Edge<N>>, node: N)
    ensures New(nodes, edges).GetAdjacentEdges(node) ==
              if node in nodes then Ok(set e | e in edges && (e.a == node || e.b == node))
              else Err(NodeNotFound(node))
  {
  }
}
