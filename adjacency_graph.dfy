/** The immutable graph backed by an adjacency matrix: every node gets a dense
    index in [0, |nodes|), and cell (i, j) of the matrix holds the weight of the
    edge between the nodes with indices i and j, with 0 meaning "no edge". */
module AdjacencyGraphs {
  import opened Graphs
  import opened Matrix

  /** Every edge of `order` has both endpoints indexed. */
  ghost predicate Indexed<N>(order: seq<Edge<N>>, index: map<N, nat>) {
    forall k :: 0 <= k < |order| ==> order[k].a in index && order[k].b in index
  }

  /** Edge `e` is written into the cell pair (i, j) when its endpoints have indices i and j. */
  ghost predicate Touches<N>(e: Edge<N>, index: map<N, nat>, i: nat, j: nat)
    requires e.a in index && e.b in index
  {
    (index[e.a] == i && index[e.b] == j) || (index[e.a] == j && index[e.b] == i)
  }

  /** The value of cell (i, j) after the edges of `order` have been written, one
      after another, into a zero matrix, each into both of its cells: the last
      edge that touches the cell decides it, and an untouched cell stays 0. */
  ghost function Written<N>(order: seq<Edge<N>>, index: map<N, nat>, i: nat, j: nat): (r: int32)
    requires Indexed(order, index)
    ensures (forall k :: 0 <= k < |order| ==> !Touches(order[k], index, i, j)) ==> r == 0
  {
    if order == [] then 0
    else
      var e := order[|order| - 1];
      if Touches(e, index, i, j) then e.weight else Written(order[..|order| - 1], index, i, j)
  }

  /** `index` gives each of the nodes a distinct index in [0, |nodes|) and
      `inverse` maps each such index back to its node. */
  ghost predicate IndexBijection<N>(index: map<N, nat>, inverse: map<nat, N>, nodes: set<N>) {
    && index.Keys == nodes
    && (forall n :: n in index ==> index[n] < |nodes| && index[n] in inverse && inverse[index[n]] == n)
    && (forall i: nat :: i < |nodes| ==> i in inverse)
    && (forall i :: i in inverse ==> i < |nodes| && inverse[i] in index && index[inverse[i]] == i)
  }

  /** A nonzero cell was written by some edge of `order` with exactly that weight. */
  lemma {:induction false} WrittenHasWriter<N>(order: seq<Edge<N>>, index: map<N, nat>, i: nat, j: nat)
    requires Indexed(order, index)
    requires Written(order, index, i, j) != 0
    ensures exists k :: 0 <= k < |order| && Touches(order[k], index, i, j) && order[k].weight == Written(order, index, i, j)
  {
    var last := |order| - 1;
    if !Touches(order[last], index, i, j) {
      var prefix := order[..last];
      WrittenHasWriter(prefix, index, i, j);
      var k :| 0 <= k < |prefix| && Touches(prefix[k], index, i, j) && prefix[k].weight == Written(prefix, index, i, j);
      assert order[k] == prefix[k];
    }
  }

  /** When the edges of `order` that touch cell (i, j) all carry weight w and
      there is at least one, the cell holds w. */
  lemma {:induction false} WrittenSingleWeight<N>(order: seq<Edge<N>>, index: map<N, nat>, i: nat, j: nat, w: int32)
    requires Indexed(order, index)
    requires exists k :: 0 <= k < |order| && Touches(order[k], index, i, j)
    requires forall k :: 0 <= k < |order| && Touches(order[k], index, i, j) ==> order[k].weight == w
    ensures Written(order, index, i, j) == w
  {
    var last := |order| - 1;
    if !Touches(order[last], index, i, j) {
      var prefix := order[..last];
      var k :| 0 <= k < |order| && Touches(order[k], index, i, j);
      assert k < last && prefix[k] == order[k];
      forall k' | 0 <= k' < |prefix| && Touches(prefix[k'], index, i, j)
        ensures prefix[k'].weight == w
      {
        assert prefix[k'] == order[k'];
      }
      WrittenSingleWeight(prefix, index, i, j, w);
    }
  }

  /** The constructor's first pass: each node, in the node set's iteration
      order, gets the next free index 0, 1, 2, ...; `owner` lists the nodes in
      the order they were numbered. */
  method NumberNodes<N>(nodes: set<N>) returns (indices: map<N, nat>, ghost owner: seq<N>)
    ensures indices.Keys == nodes && |owner| == |nodes|
    ensures forall n :: n in indices ==> indices[n] < |owner| && owner[indices[n]] == n
    ensures forall i :: 0 <= i < |owner| ==> owner[i] in indices && indices[owner[i]] == i
  {
    indices, owner := map[], [];
    var index: nat := 0;
    var rest := nodes;
    while rest != {}
      invariant rest <= nodes
      invariant indices.Keys == nodes - rest
      invariant index == |owner| && |owner| + |rest| == |nodes|
      invariant forall n :: n in indices ==> indices[n] < index && owner[indices[n]] == n
      invariant forall i :: 0 <= i < |owner| ==> owner[i] in indices && indices[owner[i]] == i
      decreases |rest|
    {
      var node :| node in rest;
      indices := indices[node := index];
      owner := owner + [node];
      index := index + 1;
      rest := rest - {node};
    }
  }

  /** The constructor's second pass: the inverse map, built from the indices of
      the first pass, so the two are each other's inverse. */
  method IndexNodes<N>(nodes: set<N>) returns (indices: map<N, nat>, inverse: map<nat, N>)
    ensures IndexBijection(indices, inverse, nodes)
  {
    ghost var owner;
    indices, owner := NumberNodes(nodes);
    inverse := map[];
    var rest := nodes;
    while rest != {}
      invariant rest <= nodes
      invariant forall n :: n in nodes - rest ==> indices[n] in inverse && inverse[indices[n]] == n
      invariant forall i :: i in inverse ==> inverse[i] in nodes - rest && indices[inverse[i]] == i
      decreases |rest|
    {
      var node :| node in rest;
      inverse := inverse[indices[node] := node];
      rest := rest - {node};
    }
    forall i: nat | i < |nodes|
      ensures i in inverse
    {
      assert owner[i] in nodes - rest;
    }
  }

  /** Writes each edge of `edges`, in the set's iteration order, into both cells
      at the indices of its endpoints; `order` is the order used. */
  method WriteEdges<N>(m: AdjacencyMatrix, edges: set<Edge<N>>, indices: map<N, nat>) returns (ghost order: seq<Edge<N>>)
    requires m.Valid() && forall i, j :: 0 <= i < m.matrix.Length0 && 0 <= j < m.matrix.Length0 ==> m.matrix[i, j] == 0
    requires forall e :: e in edges ==> e.a in indices && e.b in indices
    requires forall n :: n in indices ==> indices[n] < m.matrix.Length0
    modifies m.matrix
    ensures m.Valid() && Enumerates(order, edges) && Indexed(order, indices)
    ensures forall i, j :: 0 <= i < m.matrix.Length0 && 0 <= j < m.matrix.Length0 ==> m.matrix[i, j] == Written(order, indices, i, j)
  {
    order := [];
    var todo := edges;
    while todo != {}
      invariant todo <= edges
      invariant forall e :: e in edges - todo ==> e in order
      invariant forall k :: 0 <= k < |order| ==> order[k] in edges - todo
      invariant forall k, l :: 0 <= k < l < |order| ==> order[k] != order[l]
      invariant Indexed(order, indices)
      invariant m.Valid()
      invariant forall i, j :: 0 <= i < m.matrix.Length0 && 0 <= j < m.matrix.Length0 ==> m.matrix[i, j] == Written(order, indices, i, j)
      decreases |todo|
    {
      var e :| e in todo;
      m.AddEdge(indices[e.a], indices[e.b], e.weight);
      ghost var before := order;
      order := order + [e];
      assert order[..|order| - 1] == before;
      todo := todo - {e};
    }
  }

  class AdjacencyGraph<N(==)> {
    /** The matrix holding the weights. */
    const matrix: AdjacencyMatrix
    /** Node to matrix index. */
    const nodeIndices: map<N, nat>
    /** Matrix index to node: the inverse of nodeIndices. */
    const indexNodes: map<nat, N>
    const nodes: set<N>
    const edges: set<Edge<N>>
    /** The order in which the constructor wrote the edges (the edge set's iteration order). */
    ghost const writeOrder: seq<Edge<N>>

    ghost predicate Valid()
      reads matrix.matrix
    {
      && matrix.Valid()
      && matrix.matrix.Length0 == |nodes|
      && IndexBijection(nodeIndices, indexNodes, nodes)
      && Graph(nodes, edges).WellFormed()
      && Enumerates(writeOrder, edges)
      && Indexed(writeOrder, nodeIndices)
      && forall i, j :: 0 <= i < |nodes| && 0 <= j < |nodes| ==> matrix.matrix[i, j] == Written(writeOrder, nodeIndices, i, j)
    }

    /** Numbers the nodes, derives the inverse map from that numbering, then
        writes every edge into a fresh zero matrix of size |nodes|. An edge with
        an endpoint outside `nodes` has no index to be written at. */
    constructor (nodes: set<N>, edges: set<Edge<N>>)
      requires Graph(nodes, edges).WellFormed()
      ensures Valid() && fresh(matrix) && fresh(matrix.matrix)
      ensures this.nodes == nodes && this.edges == edges
    {
      var m := new AdjacencyMatrix(|nodes|);
      var indices, inverse := IndexNodes(nodes);
      ghost var order := WriteEdges(m, edges, indices);
      matrix := m;
      this.nodes := nodes;
      this.edges := edges;
      nodeIndices := indices;
      indexNodes := inverse;
      writeOrder := order;
    }

    /** The node set given at construction: the domain of the index map, one node per matrix row. */
    function GetNodes(): (r: set<N>)
      reads matrix.matrix
      requires Valid()
      ensures r == nodeIndices.Keys && |r| == matrix.matrix.Length0
    {
      nodes
    }

    /** The edge set given at construction: every edge joins two indexed nodes. */
    function GetEdges(): (r: set<Edge<N>>)
      reads matrix.matrix
      requires Valid()
      ensures forall e :: e in r ==> e.a in nodeIndices && e.b in nodeIndices
    {
      edges
    }

    /** The edges at `node`, rebuilt from the matrix row of `node`: one edge
        `(node, other, weight)` for each node whose cell is nonzero. A weight-0
        edge cannot be told apart from no edge and is never returned. On a graph
        without nodes there is no index to scan, and any node gets the empty set. */
    function GetAdjacentEdges(node: N): (r: set<Edge<N>>)
      reads matrix.matrix
      requires Valid() && (node in nodes || nodes == {})
      ensures forall e :: e in r ==>
                && e.a == node && e.b in nodes && e.weight != 0
                && e.weight == matrix.GetWeight(nodeIndices[e.b], nodeIndices[node])
      ensures forall b :: b in nodes && matrix.GetWeight(nodeIndices[b], nodeIndices[node]) != 0 ==>
                Edge(node, b, matrix.GetWeight(nodeIndices[b], nodeIndices[node])) in r
    {
      if nodes == {} then {}
      else
        var idx := nodeIndices[node];
        set i: nat | i < |nodes| && matrix.matrix[idx, i] != 0 :: Edge(node, indexNodes[i], matrix.matrix[i, idx])
    }

    /** This graph seen through the graph interface: its node set and edge set. */
    function ToGraph(): (g: Graph<N>)
      reads matrix.matrix
      requires Valid()
      ensures g.nodes == GetNodes() && g.edges == GetEdges() && g.WellFormed()
    {
      Graph(nodes, edges)
    }
  }

  /** Every edge of the graph at `node` with a nonzero weight is rebuilt from the
      matrix, turned so that it starts at `node`, provided no other edge joins
      the same pair (a later write would otherwise overwrite its weight). */
  lemma IncidentEdgeIsAdjacent<N>(g: AdjacencyGraph<N>, node: N, e: Edge<N>)
    requires g.Valid() && node in g.nodes && NoParallelEdges(g.edges)
    requires e.a == node && e.weight != 0
    requires Edge(node, e.b, e.weight) in g.edges || Edge(e.b, node, e.weight) in g.edges
    ensures e in g.GetAdjacentEdges(node)
  {
    var order, index := g.writeOrder, g.nodeIndices;
    var f := if Edge(node, e.b, e.weight) in g.edges then Edge(node, e.b, e.weight) else Edge(e.b, node, e.weight);
    var i, j := index[e.b], index[node];
    var k :| 0 <= k < |order| && order[k] == f;
    assert Touches(order[k], index, i, j);
    forall k' | 0 <= k' < |order| && Touches(order[k'], index, i, j)
      ensures order[k'].weight == e.weight
    {
      var h := order[k'];
      assert h in g.edges;
      assert g.indexNodes[index[h.a]] == h.a && g.indexNodes[index[h.b]] == h.b;
      assert SamePair(h, f);
    }
    WrittenSingleWeight(order, index, i, j, e.weight);
    assert g.matrix.GetWeight(i, j) == e.weight;
  }

  /** Every edge rebuilt from the matrix at `node` starts at `node`, has a
      nonzero weight, and is an edge of the graph at `node`, in one of its two
      orientations, with that weight. */
  lemma AdjacentEdgeIsIncident<N>(g: AdjacencyGraph<N>, node: N, e: Edge<N>)
    requires g.Valid() && node in g.nodes
    requires e in g.GetAdjacentEdges(node)
    ensures e.a == node && e.weight != 0
    ensures Edge(node, e.b, e.weight) in g.edges || Edge(e.b, node, e.weight) in g.edges
  {
    var order, index := g.writeOrder, g.nodeIndices;
    var i, j := index[e.b], index[node];
    assert g.matrix.matrix[i, j] == Written(order, index, i, j);
    WrittenHasWriter(order, index, i, j);
    var k :| 0 <= k < |order| && Touches(order[k], index, i, j) && order[k].weight == Written(order, index, i, j);
    assert order[k] in g.edges;
  }

  /** Without parallel edges, the matrix rebuilds exactly the graph's edges at
      `node` that have a nonzero weight, each turned so that it starts at `node`. */
  lemma AdjacentEdgesAreIncidentEdges<N>(g: AdjacencyGraph<N>, node: N, e: Edge<N>)
    requires g.Valid() && node in g.nodes && NoParallelEdges(g.edges)
    ensures e in g.GetAdjacentEdges(node) <==>
              && e.a == node && e.weight != 0
              && (Edge(node, e.b, e.weight) in g.edges || Edge(e.b, node, e.weight) in g.edges)
  {
    if e.a == node && e.weight != 0 && (Edge(node, e.b, e.weight) in g.edges || Edge(e.b, node, e.weight) in g.edges) {
      IncidentEdgeIsAdjacent(g, node, e);
    }
    if e in g.GetAdjacentEdges(node) {
      AdjacentEdgeIsIncident(g, node, e);
    }
  }
}
