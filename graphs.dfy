/** Value types shared by the graph representations and the two calculators:
    Java's 32-bit `int`, undirected weighted edges, graphs as a pair of sets,
    and the Option/Result wrappers used for lookups that can fail. */
module Graphs {

  /** Java's `int`. */
  newtype int32 = x: int | -0x8000_0000 <= x < 0x8000_0000

  /** `Integer.MAX_VALUE`. */
  const MaxInt: int32 := 0x7fff_ffff

  /** Java's `a + b` on two `int` values: the exact sum, wrapped into the
      32-bit range modulo 2^32. */
  function Add32(a: int32, b: int32): (r: int32)
    ensures -0x8000_0000 <= a as int + b as int < 0x8000_0000 ==> r as int == a as int + b as int
    ensures 0x8000_0000 <= a as int + b as int ==> r as int == a as int + b as int - 0x1_0000_0000
    ensures a as int + b as int < -0x8000_0000 ==> r as int == a as int + b as int + 0x1_0000_0000
  {
    ((a as int + b as int + 0x8000_0000) % 0x1_0000_0000 - 0x8000_0000) as int32
  }

  /** An undirected connection between nodes `a` and `b` with an integer weight.
      Equality here is structural: `Edge(a, b, w)` and `Edge(b, a, w)` are two values. */
  datatype Edge<N> = Edge(a: N, b: N, weight: int32)

  /** A graph as the pair of its node set and its edge set. */
  datatype Graph<N> = Graph(nodes: set<N>, edges: set<Edge<N>>)
  {
    /** Every edge joins two nodes of the graph. */
    ghost predicate WellFormed() {
      forall e :: e in edges ==> e.a in nodes && e.b in nodes
    }
  }

  /** Two edges join the same unordered pair of nodes. */
  predicate SamePair<N(==)>(e: Edge<N>, f: Edge<N>) {
    (e.a == f.a && e.b == f.b) || (e.a == f.b && e.b == f.a)
  }

  /** No two distinct edges join the same unordered pair of nodes (no parallel edges). */
  ghost predicate NoParallelEdges<N>(edges: set<Edge<N>>) {
    forall e, f :: e in edges && f in edges && SamePair(e, f) ==> e == f
  }

  /** `order` lists every element of `s` exactly once: one iteration order of a hash set. */
  ghost predicate Enumerates<T>(order: seq<T>, s: set<T>) {
    && (forall x :: x in s ==> x in order)
    && (forall k :: 0 <= k < |order| ==> order[k] in s)
    && (forall k, l :: 0 <= k < l < |order| ==> order[k] != order[l])
  }

  /** Some iteration order of `s`; which one is left open, as for a Java `HashSet`. */
  method Enumerate<T>(s: set<T>) returns (order: seq<T>)
    ensures Enumerates(order, s) && |order| == |s|
  {
    order := [];
    var rest := s;
    while rest != {}
      invariant rest <= s
      invariant forall x :: x in s - rest ==> x in order
      invariant forall k :: 0 <= k < |order| ==> order[k] in s - rest
      invariant forall k, l :: 0 <= k < l < |order| ==> order[k] != order[l]
      invariant |order| + |rest| == |s|
      decreases |rest|
    {
      var x :| x in rest;
      order := order + [x];
      rest := rest - {x};
    }
  }

  datatype Option<T> = None | Some(value: T)

  datatype Result<T, E> = Ok(value: T) | Err(error: E)

  /** The error a graph reports for a node it does not contain. */
  datatype GraphError<N> = NodeNotFound(node: N)
}
