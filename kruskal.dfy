/** Kruskal's minimum-spanning-tree calculator: the edges are scanned in sorted
    order, and an edge is taken exactly when its endpoints lie in two different
    groups of a list of disjoint node groups, which it then merges. */
module Kruskal {
  import opened Graphs

  /** The groups split `nodes`: no group is empty, no two groups share a node,
      and together they hold exactly the nodes. */
  ghost predicate Partition<N>(groups: seq<set<N>>, nodes: set<N>) {
    && (forall i :: 0 <= i < |groups| ==> groups[i] != {})
    && Disjoint(groups)
    && Union(groups) == nodes
  }

  /** All members of all groups. */
  ghost function Union<N>(groups: seq<set<N>>): set<N> {
    if groups == [] then {} else Union(groups[..|groups| - 1]) + groups[|groups| - 1]
  }

  /** A node is in the union exactly when some group holds it. */
  lemma {:induction false} UnionMembers<N>(groups: seq<set<N>>, n: N)
    ensures n in Union(groups) <==> exists i :: 0 <= i < |groups| && n in groups[i]
  {
    if groups != [] {
      var prefix := groups[..|groups| - 1];
      UnionMembers(prefix, n);
      if n in Union(prefix) {
        var i :| 0 <= i < |prefix| && n in prefix[i];
        assert n in groups[i];
      }
      if exists i :: 0 <= i < |groups| && n in groups[i] {
        var i :| 0 <= i < |groups| && n in groups[i];
        if i < |prefix| {
          assert n in prefix[i];
        }
      }
    }
  }

  /** No two groups share a node. */
  ghost predicate Disjoint<N>(groups: seq<set<N>>) {
    forall i, j :: 0 <= i < j < |groups| ==> groups[i] !! groups[j]
  }

  /** Some group holds both `x` and `y`: the stream test
      `filter(contains x).anyMatch(contains y)`. When the groups are disjoint,
      every group holding `x` then holds `y`, so it does not matter which
      group holding `x` a lookup finds. */
  predicate SameGroup<N(==)>(groups: seq<set<N>>, x: N, y: N)
    ensures SameGroup(groups, x, y) && Disjoint(groups) ==>
              forall i :: 0 <= i < |groups| && x in groups[i] ==> y in groups[i]
  {
    exists i :: 0 <= i < |groups| && x in groups[i] && y in groups[i]
  }

  /** The position of the first group holding `x`: `indexOf` of the group found
      by `filter(contains x).findAny()`. */
  function GroupIndex<N>(groups: seq<set<N>>, x: N): (i: nat)
    requires x in Union(groups)
    ensures i < |groups| && x in groups[i]
    ensures forall k :: 0 <= k < i ==> x !in groups[k]
  {
    UnionMembers(groups, x);
    FirstGroupFrom(groups, x, 0)
  }

  /** The position of the first group at or after `from` holding `x`. */
  function FirstGroupFrom<N>(groups: seq<set<N>>, x: N, from: nat): (i: nat)
    requires exists k :: from <= k < |groups| && x in groups[k]
    ensures from <= i < |groups| && x in groups[i]
    ensures forall k :: from <= k < i ==> x !in groups[k]
    decreases |groups| - from
  {
    if x in groups[from] then from else FirstGroupFrom(groups, x, from + 1)
  }

  /** The index that position `k` of a list had before the element at `removed` was taken out. */
  function Before(k: nat, removed: nat): (j: nat)
    ensures j != removed && (j < removed <==> k < removed)
  {
    if k < removed then k else k + 1
  }

  /** `joinGroups(aIndex, bIndex)` on the list's contents: the strictly larger of
      the two groups (the one at `bIndex` when they are the same size) receives
      the members of the other, which is then removed from the list. */
  function Joined<N>(groups: seq<set<N>>, aIndex: nat, bIndex: nat): (r: seq<set<N>>)
    requires aIndex < |groups| && bIndex < |groups|
    ensures |r| == |groups| - 1
  {
    var target := if |groups[aIndex]| > |groups[bIndex]| then aIndex else bIndex;
    var smaller := if target == aIndex then bIndex else aIndex;
    var merged := groups[target := groups[target] + groups[smaller]];
    merged[..smaller] + merged[smaller + 1..]
  }

  /** Each group of the joined list is the union of the two joined groups or one
      of the other groups, in its old order. */
  lemma JoinedGroups<N>(groups: seq<set<N>>, aIndex: nat, bIndex: nat, k: nat)
    requires aIndex < |groups| && bIndex < |groups| && aIndex != bIndex && k < |groups| - 1
    ensures var smaller := if |groups[aIndex]| > |groups[bIndex]| then bIndex else aIndex;
            var j := Before(k, smaller);
            Joined(groups, aIndex, bIndex)[k] == if j == aIndex || j == bIndex then groups[aIndex] + groups[bIndex] else groups[j]
  {
  }

  /** The position in the joined list of the group that received the other's members. */
  function TargetAfter<N>(groups: seq<set<N>>, aIndex: nat, bIndex: nat): (k: nat)
    requires aIndex < |groups| && bIndex < |groups| && aIndex != bIndex
    ensures k < |groups| - 1
    ensures Joined(groups, aIndex, bIndex)[k] == groups[aIndex] + groups[bIndex]
  {
    var smaller := if |groups[aIndex]| > |groups[bIndex]| then bIndex else aIndex;
    var target := if smaller == aIndex then bIndex else aIndex;
    var k := if target < smaller then target else target - 1;
    JoinedGroups(groups, aIndex, bIndex, k);
    k
  }

  /** The position in the joined list of a group other than the two joined ones. */
  function OtherAfter<N>(groups: seq<set<N>>, aIndex: nat, bIndex: nat, i: nat): (k: nat)
    requires aIndex < |groups| && bIndex < |groups| && aIndex != bIndex
    requires i < |groups| && i != aIndex && i != bIndex
    ensures k < |groups| - 1 && Joined(groups, aIndex, bIndex)[k] == groups[i]
  {
    var smaller := if |groups[aIndex]| > |groups[bIndex]| then bIndex else aIndex;
    var k := if i < smaller then i else i - 1;
    JoinedGroups(groups, aIndex, bIndex, k);
    k
  }

  /** Joining two different groups of disjoint non-empty groups leaves disjoint
      non-empty groups. */
  lemma JoinedKeepsDisjoint<N>(groups: seq<set<N>>, aIndex: nat, bIndex: nat)
    requires aIndex < |groups| && bIndex < |groups| && aIndex != bIndex
    requires Disjoint(groups) && forall i :: 0 <= i < |groups| ==> groups[i] != {}
    ensures var r := Joined(groups, aIndex, bIndex);
            Disjoint(r) && forall k :: 0 <= k < |r| ==> r[k] != {}
  {
    var r := Joined(groups, aIndex, bIndex);
    var smaller := if |groups[aIndex]| > |groups[bIndex]| then bIndex else aIndex;
    forall k | 0 <= k < |r|
      ensures r[k] != {}
    {
      JoinedGroups(groups, aIndex, bIndex, k);
    }
    forall k, l | 0 <= k < l < |r|
      ensures r[k] !! r[l]
    {
      JoinedGroups(groups, aIndex, bIndex, k);
      JoinedGroups(groups, aIndex, bIndex, l);
      assert Before(k, smaller) < Before(l, smaller);
    }
  }

  /** A node is held by the joined list exactly when it was held by the list. */
  lemma JoinedMember<N>(groups: seq<set<N>>, aIndex: nat, bIndex: nat, n: N)
    requires aIndex < |groups| && bIndex < |groups| && aIndex != bIndex
    ensures (exists k :: 0 <= k < |groups| - 1 && n in Joined(groups, aIndex, bIndex)[k]) <==>
            (exists i :: 0 <= i < |groups| && n in groups[i])
  {
    var r := Joined(groups, aIndex, bIndex);
    var smaller := if |groups[aIndex]| > |groups[bIndex]| then bIndex else aIndex;
    if exists i :: 0 <= i < |groups| && n in groups[i] {
      var i :| 0 <= i < |groups| && n in groups[i];
      var k := if i != aIndex && i != bIndex then OtherAfter(groups, aIndex, bIndex, i) else TargetAfter(groups, aIndex, bIndex);
      assert n in r[k];
    }
    if exists k :: 0 <= k < |r| && n in r[k] {
      var k :| 0 <= k < |r| && n in r[k];
      JoinedGroups(groups, aIndex, bIndex, k);
      var j := Before(k, smaller);
      if j == aIndex || j == bIndex {
        assert n in groups[aIndex] || n in groups[bIndex];
      } else {
        assert n in groups[j];
      }
    }
  }

  /** Joining two groups keeps the union of all groups. */
  lemma JoinedKeepsUnion<N>(groups: seq<set<N>>, aIndex: nat, bIndex: nat)
    requires aIndex < |groups| && bIndex < |groups| && aIndex != bIndex
    ensures Union(Joined(groups, aIndex, bIndex)) == Union(groups)
  {
    var r := Joined(groups, aIndex, bIndex);
    forall n
      ensures n in Union(r) <==> n in Union(groups)
    {
      UnionMembers(r, n);
      UnionMembers(groups, n);
      JoinedMember(groups, aIndex, bIndex, n);
    }
    SameMembers(Union(r), Union(groups));
  }

  /** Appending a group adds its members to the union. */
  lemma UnionAppend<N>(groups: seq<set<N>>, g: set<N>)
    ensures Union(groups + [g]) == Union(groups) + g
  {
    assert (groups + [g])[..|groups|] == groups;
  }

  /** Appending a group that shares no node with the others keeps the groups disjoint. */
  lemma DisjointAppend<N>(groups: seq<set<N>>, g: set<N>)
    requires Disjoint(groups) && forall i :: 0 <= i < |groups| ==> groups[i] !! g
    ensures Disjoint(groups + [g])
  {
  }

  /** Two sets with the same members are equal. */
  lemma SameMembers<T>(s: set<T>, t: set<T>)
    requires forall x :: x in s <==> x in t
    ensures s == t
  {
  }

  /** After joining two groups, two nodes share a group exactly when they did
      before or both lie in one of the two joined groups. */
  lemma JoinedSameGroup<N>(groups: seq<set<N>>, aIndex: nat, bIndex: nat, x: N, y: N)
    requires aIndex < |groups| && bIndex < |groups| && aIndex != bIndex
    ensures SameGroup(Joined(groups, aIndex, bIndex), x, y) <==>
              SameGroup(groups, x, y) || (x in groups[aIndex] + groups[bIndex] && y in groups[aIndex] + groups[bIndex])
  {
    var r := Joined(groups, aIndex, bIndex);
    var smaller := if |groups[aIndex]| > |groups[bIndex]| then bIndex else aIndex;
    if SameGroup(r, x, y) {
      var k :| 0 <= k < |r| && x in r[k] && y in r[k];
      JoinedGroups(groups, aIndex, bIndex, k);
      var j := Before(k, smaller);
      if j != aIndex && j != bIndex {
        assert x in groups[j] && y in groups[j];
      }
    }
    if SameGroup(groups, x, y) {
      var i :| 0 <= i < |groups| && x in groups[i] && y in groups[i];
      if i != aIndex && i != bIndex {
        var k := OtherAfter(groups, aIndex, bIndex, i);
        assert x in r[k] && y in r[k];
      }
    }
    if x in groups[aIndex] + groups[bIndex] && y in groups[aIndex] + groups[bIndex] {
      var k := TargetAfter(groups, aIndex, bIndex);
      assert x in r[k] && y in r[k];
    }
  }

  /** Joining two different groups of a partition leaves a partition with one
      group fewer. */
  lemma JoinedKeepsPartition<N>(groups: seq<set<N>>, nodes: set<N>, aIndex: nat, bIndex: nat)
    requires Partition(groups, nodes) && aIndex < |groups| && bIndex < |groups| && aIndex != bIndex
    ensures Partition(Joined(groups, aIndex, bIndex), nodes) && |Joined(groups, aIndex, bIndex)| == |groups| - 1
  {
    JoinedKeepsDisjoint(groups, aIndex, bIndex);
    JoinedKeepsUnion(groups, aIndex, bIndex);
  }

  /** `x` and `y` are the two ends of an edge of `kept`, taken in either direction. */
  ghost predicate Link<N(!new)>(kept: set<Edge<N>>, x: N, y: N) {
    exists e :: e in kept && ((e.a == x && e.b == y) || (e.a == y && e.b == x))
  }

  /** `p` is a walk along edges of `kept`, each taken in either direction. */
  ghost predicate Path<N(!new)>(kept: set<Edge<N>>, p: seq<N>) {
    |p| >= 1 && forall k :: 0 <= k < |p| - 1 ==> Link(kept, p[k], p[k + 1])
  }

  /** Some walk along edges of `kept` leads from `x` to `y`. */
  ghost predicate Connected<N(!new)>(kept: set<Edge<N>>, x: N, y: N) {
    exists p :: Path(kept, p) && p[0] == x && p[|p| - 1] == y
  }

  /** Two nodes that share a group are connected by the accepted edges. */
  ghost predicate Spanned<N(!new)>(groups: seq<set<N>>, kept: set<Edge<N>>) {
    forall x, y :: SameGroup(groups, x, y) ==> Connected(kept, x, y)
  }

  /** A walk from `x` to `y` followed by one from `y` to `z` is a walk from `x` to `z`. */
  lemma ConnectedTrans<N(!new)>(kept: set<Edge<N>>, x: N, y: N, z: N)
    requires Connected(kept, x, y) && Connected(kept, y, z)
    ensures Connected(kept, x, z)
  {
    var p :| Path(kept, p) && p[0] == x && p[|p| - 1] == y;
    var q :| Path(kept, q) && q[0] == y && q[|q| - 1] == z;
    var r := p + q[1..];
    forall k | 0 <= k < |r| - 1
      ensures Link(kept, r[k], r[k + 1])
    {
      if k < |p| - 1 {
        assert r[k] == p[k] && r[k + 1] == p[k + 1];
      } else {
        assert r[k] == q[k - |p| + 1] && r[k + 1] == q[k - |p| + 2];
      }
    }
    assert Path(kept, r) && r[0] == x && r[|r| - 1] == z;
  }

  /** An edge connects its ends both ways. */
  lemma ConnectedByEdge<N(!new)>(kept: set<Edge<N>>, e: Edge<N>)
    requires e in kept
    ensures Connected(kept, e.a, e.b) && Connected(kept, e.b, e.a)
  {
    assert Path(kept, [e.a, e.b]);
    assert Path(kept, [e.b, e.a]);
  }

  /** Adding an edge keeps every walk. */
  lemma ConnectedGrows<N(!new)>(kept: set<Edge<N>>, e: Edge<N>, x: N, y: N)
    requires Connected(kept, x, y)
    ensures Connected(kept + {e}, x, y)
  {
    var p :| Path(kept, p) && p[0] == x && p[|p| - 1] == y;
    forall k | 0 <= k < |p| - 1
      ensures Link(kept + {e}, p[k], p[k + 1])
    {
      assert Link(kept, p[k], p[k + 1]);
    }
    assert Path(kept + {e}, p);
  }

  /** Accepting an edge between two different groups and joining those groups
      keeps every group connected by the accepted edges. */
  lemma JoinedKeepsSpanned<N(!new)>(groups: seq<set<N>>, kept: set<Edge<N>>, aIndex: nat, bIndex: nat, e: Edge<N>)
    requires aIndex < |groups| && bIndex < |groups| && aIndex != bIndex
    requires e.a in groups[aIndex] && e.b in groups[bIndex] && Spanned(groups, kept)
    ensures Spanned(Joined(groups, aIndex, bIndex), kept + {e})
  {
    var more := kept + {e};
    forall x, y | SameGroup(Joined(groups, aIndex, bIndex), x, y)
      ensures Connected(more, x, y)
    {
      JoinedSameGroup(groups, aIndex, bIndex, x, y);
      ConnectedByEdge(more, e);
      if SameGroup(groups, x, y) {
        ConnectedGrows(kept, e, x, y);
      } else {
        var ends := [e.a, e.b];
        // x and y lie in different joined groups, each with one end of `e`.
        var gx := if x in groups[aIndex] then 0 else 1;
        var gy := if y in groups[aIndex] then 0 else 1;
        var idx := [aIndex, bIndex];
        assert SameGroup(groups, x, ends[gx]) by { assert x in groups[idx[gx]] && ends[gx] in groups[idx[gx]]; }
        assert SameGroup(groups, ends[gy], y) by { assert y in groups[idx[gy]] && ends[gy] in groups[idx[gy]]; }
        ConnectedGrows(kept, e, x, ends[gx]);
        ConnectedGrows(kept, e, ends[gy], y);
        ConnectedTrans(more, x, ends[gx], ends[gy]);
        ConnectedTrans(more, x, ends[gy], y);
      }
    }
  }

  /** Kruskal's scan as a function: each edge of `sorted` in turn is skipped
      when one group holds both its endpoints, and otherwise kept, with the
      groups of its endpoints joined. The scan keeps the grouped nodes and the
      edges kept before, keeps only edges of `sorted` besides, and every edge
      it keeps costs one group. */
  ghost function Scan<N>(groups: seq<set<N>>, kept: set<Edge<N>>, sorted: seq<Edge<N>>): (r: (seq<set<N>>, set<Edge<N>>))
    requires forall k :: 0 <= k < |sorted| ==> sorted[k].a in Union(groups) && sorted[k].b in Union(groups)
    ensures Union(r.0) == Union(groups)
    ensures kept <= r.1 && forall e :: e in r.1 && e !in kept ==> exists k :: 0 <= k < |sorted| && sorted[k] == e
    ensures |r.0| + |r.1| <= |groups| + |kept|
    decreases |sorted|
  {
    if sorted == [] then (groups, kept)
    else
      var e := sorted[0];
      if SameGroup(groups, e.a, e.b) then Scan(groups, kept, sorted[1..])
      else
        var i, j := GroupIndex(groups, e.a), GroupIndex(groups, e.b);
        assert e.b !in groups[i];
        JoinedKeepsUnion(groups, i, j);
        Scan(Joined(groups, i, j), kept + {e}, sorted[1..])
  }

  /** One step of the scan: the first edge is skipped when its endpoints share
      a group, and otherwise kept with its endpoints' groups joined. */
  lemma ScanUnfold<N>(groups: seq<set<N>>, kept: set<Edge<N>>, sorted: seq<Edge<N>>)
    requires sorted != [] && forall k :: 0 <= k < |sorted| ==> sorted[k].a in Union(groups) && sorted[k].b in Union(groups)
    ensures SameGroup(groups, sorted[0].a, sorted[0].b) ==> Scan(groups, kept, sorted) == Scan(groups, kept, sorted[1..])
    ensures !SameGroup(groups, sorted[0].a, sorted[0].b) ==>
              var i, j := GroupIndex(groups, sorted[0].a), GroupIndex(groups, sorted[0].b);
              && i != j && Union(Joined(groups, i, j)) == Union(groups)
              && Scan(groups, kept, sorted) == Scan(Joined(groups, i, j), kept + {sorted[0]}, sorted[1..])
  {
    var e := sorted[0];
    if !SameGroup(groups, e.a, e.b) {
      var i, j := GroupIndex(groups, e.a), GroupIndex(groups, e.b);
      assert e.b !in groups[i];
      JoinedKeepsUnion(groups, i, j);
    }
  }

  /** Appending the singleton of a node not yet placed keeps the groups
      disjoint singletons and adds the node to their union. */
  lemma SingletonsStep<N>(groups: seq<set<N>>, placed: set<N>, node: N)
    requires forall i :: 0 <= i < |groups| ==> |groups[i]| == 1 && groups[i] <= placed
    requires Disjoint(groups) && Union(groups) == placed && node !in placed
    ensures forall i :: 0 <= i < |groups| + 1 ==> |(groups + [{node}])[i]| == 1 && (groups + [{node}])[i] <= placed + {node}
    ensures Disjoint(groups + [{node}]) && Union(groups + [{node}]) == placed + {node}
  {
    DisjointAppend(groups, {node});
    UnionAppend(groups, {node});
  }

  /** One group `{n}` per node `n`, in the node set's iteration order: a
      partition of the nodes into as many groups as there are nodes. */
  method Singletons<N>(nodes: set<N>) returns (groups: seq<set<N>>)
    ensures |groups| == |nodes| && Partition(groups, nodes)
    ensures forall i :: 0 <= i < |groups| ==> |groups[i]| == 1
  {
    groups := [];
    var rest := nodes;
    while rest != {}
      invariant rest <= nodes && |groups| + |rest| == |nodes|
      invariant forall i :: 0 <= i < |groups| ==> |groups[i]| == 1 && groups[i] <= nodes - rest
      invariant Disjoint(groups) && Union(groups) == nodes - rest
      decreases |rest|
    {
      var node :| node in rest;
      SingletonsStep(groups, nodes - rest, node);
      assert nodes - rest + {node} == nodes - (rest - {node});
      groups := groups + [{node}];
      rest := rest - {node};
    }
  }

  /** In a partition into groups of one node each, every node of the set is
      alone in its group: two nodes share a group exactly when they are the same node. */
  lemma {:induction false} SingletonsSeparate<N>(groups: seq<set<N>>, nodes: set<N>, x: N, y: N)
    requires Partition(groups, nodes) && forall i :: 0 <= i < |groups| ==> |groups[i]| == 1
    requires x in nodes
    ensures SameGroup(groups, x, y) <==> x == y
  {
    if SameGroup(groups, x, y) {
      var i :| 0 <= i < |groups| && x in groups[i] && y in groups[i];
      assert |groups[i] - {x}| == 0;
      assert y !in groups[i] - {x};
    }
    UnionMembers(groups, x);
    var i :| 0 <= i < |groups| && x in groups[i];
    assert x in groups[i];
  }

  /** Groups of one node each are connected by any edges, even none. */
  lemma SingletonsSpanned<N(!new)>(groups: seq<set<N>>, nodes: set<N>, kept: set<Edge<N>>)
    requires Partition(groups, nodes) && forall i :: 0 <= i < |groups| ==> |groups[i]| == 1
    ensures Spanned(groups, kept)
  {
    forall x, y | SameGroup(groups, x, y)
      ensures Connected(kept, x, y)
    {
      var i :| 0 <= i < |groups| && x in groups[i] && y in groups[i];
      UnionMembers(groups, x);
      SingletonsSeparate(groups, nodes, x, y);
      assert Path(kept, [x]);
    }
  }

  class KruskalMSTCalculator<N(==, !new)> {
    /** The graph's node set. */
    const nodes: set<N>
    /** The graph's edge set. */
    const edges: set<Edge<N>>
    /** The edges accepted so far. */
    var mstEdges: set<Edge<N>>
    /** The groups of nodes joined by the accepted edges (a list of sets, each
        set owned by the list alone). */
    var mstGroups: seq<set<N>>

    constructor (nodes: set<N>, edges: set<Edge<N>>)
      ensures this.nodes == nodes && this.edges == edges
      ensures mstEdges == {} && mstGroups == []
    {
      this.nodes := nodes;
      this.edges := edges;
      mstEdges := {};
      mstGroups := [];
    }

    /** The invariant of a calculation under way: the groups partition the nodes,
        every accepted edge is an edge of the graph joining two nodes of one
        group, and each accepted edge has cost exactly one group. */
    ghost predicate Valid()
      reads this
    {
      && Partition(mstGroups, nodes)
      && mstEdges <= edges
      && (forall e :: e in mstEdges ==> SameGroup(mstGroups, e.a, e.b))
      && |mstEdges| + |mstGroups| == |nodes|
      && Spanned(mstGroups, mstEdges)
    }

    /** Clears the accepted edges and makes one singleton group per node, in the
        node set's iteration order. */
    method Init()
      modifies this`mstEdges, this`mstGroups
      ensures mstEdges == {} && |mstGroups| == |nodes|
      ensures forall i :: 0 <= i < |mstGroups| ==> |mstGroups[i]| == 1
      ensures Valid()
    {
      mstEdges := {};
      mstGroups := Singletons(nodes);
      SingletonsSpanned(mstGroups, nodes, mstEdges);
    }

    /** Adds each member of one of the two groups to the other and removes the
        one that was added: the larger group (the one at `bIndex` on a tie in
        size) keeps its place. */
    method JoinGroups(aIndex: nat, bIndex: nat)
      requires aIndex < |mstGroups| && bIndex < |mstGroups|
      modifies this`mstGroups
      ensures mstGroups == Joined(old(mstGroups), aIndex, bIndex)
    {
      var targetIndex := if |mstGroups[aIndex]| > |mstGroups[bIndex]| then aIndex else bIndex;
      var smallerIndex := if targetIndex == aIndex then bIndex else aIndex;
      ghost var groups := mstGroups;
      var rest := mstGroups[smallerIndex];
      while rest != {}
        invariant rest <= groups[smallerIndex]
        invariant mstGroups == groups[targetIndex := groups[targetIndex] + (groups[smallerIndex] - rest)]
        decreases |rest|
      {
        var x :| x in rest;
        assert mstGroups[targetIndex] + {x} == groups[targetIndex] + (groups[smallerIndex] - (rest - {x}));
        mstGroups := mstGroups[targetIndex := mstGroups[targetIndex] + {x}];
        rest := rest - {x};
      }
      assert groups[smallerIndex] - rest == groups[smallerIndex];
      mstGroups := mstGroups[..smallerIndex] + mstGroups[smallerIndex + 1..];
    }

    /** Rejects the edge, changing nothing, when one group already holds both
        endpoints; otherwise joins the groups of the two endpoints and accepts it. */
    method AcceptEdge(edge: Edge<N>) returns (accepted: bool)
      requires Partition(mstGroups, nodes) && edge.a in nodes && edge.b in nodes
      modifies this`mstGroups
      ensures accepted <==> !SameGroup(old(mstGroups), edge.a, edge.b)
      ensures !accepted ==> mstGroups == old(mstGroups)
      ensures accepted ==> mstGroups == Joined(old(mstGroups), GroupIndex(old(mstGroups), edge.a), GroupIndex(old(mstGroups), edge.b))
    {
      if SameGroup(mstGroups, edge.a, edge.b) {
        return false;
      }
      JoinGroups(GroupIndex(mstGroups, edge.a), GroupIndex(mstGroups, edge.b));
      return true;
    }

    /** One step of the scan: an accepted edge joins its endpoints' groups and is
        added to the result; the invariant is kept and the endpoints end up in
        one group either way. */
    method Consider(edge: Edge<N>)
      requires Valid() && edge in edges && edge.a in nodes && edge.b in nodes
      modifies this`mstEdges, this`mstGroups
      ensures Valid() && SameGroup(mstGroups, edge.a, edge.b)
      ensures forall x, y :: SameGroup(old(mstGroups), x, y) ==> SameGroup(mstGroups, x, y)
      ensures mstEdges == if SameGroup(old(mstGroups), edge.a, edge.b) then old(mstEdges) else old(mstEdges) + {edge}
      ensures SameGroup(old(mstGroups), edge.a, edge.b) ==> mstGroups == old(mstGroups)
      ensures !SameGroup(old(mstGroups), edge.a, edge.b) ==>
                mstGroups == Joined(old(mstGroups), GroupIndex(old(mstGroups), edge.a), GroupIndex(old(mstGroups), edge.b))
    {
      ghost var before := mstGroups;
      var accepted := AcceptEdge(edge);
      if accepted {
        ghost var i, j := GroupIndex(before, edge.a), GroupIndex(before, edge.b);
        assert edge.b !in before[i];
        JoinedKeepsPartition(before, nodes, i, j);
        forall x, y
          ensures SameGroup(mstGroups, x, y) <==> SameGroup(before, x, y) || (x in before[i] + before[j] && y in before[i] + before[j])
        {
          JoinedSameGroup(before, i, j, x, y);
        }
        assert edge !in mstEdges;
        JoinedKeepsSpanned(before, mstEdges, i, j, edge);
        mstEdges := mstEdges + {edge};
      }
    }

    /** The minimum spanning forest: reset, then consider the edges in sorted
        order (`sorted` is the edge set in `Edge::compareTo` order), and return a
        graph of all nodes and the accepted edges. `initial` is the list of
        singleton groups the reset made; the accepted edges and the groups left
        are exactly those of the scan of `sorted` from it. */
    method CalculateMST(sorted: seq<Edge<N>>) returns (g: Graph<N>, ghost initial: seq<set<N>>)
      requires Graph(nodes, edges).WellFormed() && Enumerates(sorted, edges)
      modifies this`mstEdges, this`mstGroups
      ensures |initial| == |nodes| && Partition(initial, nodes)
      ensures forall i :: 0 <= i < |initial| ==> |initial[i]| == 1
      ensures (mstGroups, mstEdges) == Scan(initial, {}, sorted)
      ensures g.nodes == nodes && g.edges == mstEdges && g.edges <= edges && g.WellFormed()
      ensures Valid() && |g.edges| + |mstGroups| == |nodes|
      ensures nodes != {} ==> |g.edges| <= |nodes| - 1
      ensures forall e :: e in edges ==> SameGroup(mstGroups, e.a, e.b)
      ensures forall e :: e in edges ==> Connected(mstEdges, e.a, e.b)
    {
      Init();
      initial := mstGroups;
      ConsiderAll(sorted);
      g := Graph(nodes, mstEdges);
      if nodes != {} {
        assert |mstGroups| >= 1;
      }
    }

    /** Considers each edge of `sorted` in turn: the result is the scan of
        `sorted` from the state before, and the endpoints of every considered
        edge end up in one group. */
    method ConsiderAll(sorted: seq<Edge<N>>)
      requires Valid() && forall k :: 0 <= k < |sorted| ==> sorted[k] in edges && sorted[k].a in nodes && sorted[k].b in nodes
      modifies this`mstEdges, this`mstGroups
      ensures Valid() && (mstGroups, mstEdges) == Scan(old(mstGroups), old(mstEdges), sorted)
      ensures forall k :: 0 <= k < |sorted| ==> SameGroup(mstGroups, sorted[k].a, sorted[k].b)
    {
      ghost var start := Scan(mstGroups, mstEdges, sorted);
      var k := 0;
      while k < |sorted|
        invariant 0 <= k <= |sorted| && Valid()
        invariant forall l :: 0 <= l < k ==> SameGroup(mstGroups, sorted[l].a, sorted[l].b)
        invariant start == Scan(mstGroups, mstEdges, sorted[k..])
      {
        assert sorted[k..][0] == sorted[k] && sorted[k..][1..] == sorted[k + 1..];
        ScanUnfold(mstGroups, mstEdges, sorted[k..]);
        Consider(sorted[k]);
        k := k + 1;
      }
    }
  }
}
