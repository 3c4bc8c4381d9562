/** Dijkstra's single-source shortest-path calculator: an exhaustive loop that
    repeatedly takes the remaining node of least tentative distance and relaxes
    the edges the graph reports at it, then rebuilds the path to the target by
    walking predecessor links back from it. */
module Dijkstra {
  import opened Graphs

  /** The distance of a node not reached yet: `Integer.MAX_VALUE`. */
  const Infinity: int := MaxInt as int

  /** The per-run state: tentative distances and predecessors (None is Java's null). */
  datatype Run<N> = Run(distances: map<N, int>, predecessors: map<N, Option<N>>)

  /** The state right after a reset for a run from `start`. */
  function InitialRun<N>(nodes: set<N>, start: N): (r: Run<N>)
    ensures Shaped(r, nodes) && Rooted(r, start)
    ensures forall n :: n in nodes ==> r.predecessors[n] == None
  {
    Run(map n | n in nodes :: if n == start then 0 else Infinity, map n | n in nodes :: None)
  }

  /** The reset state has no predecessor links, so any stamps rank it. */
  lemma InitialRunRanked<N>(nodes: set<N>, start: N)
    ensures Ranked(InitialRun(nodes, start), map n | n in nodes :: 0, 1)
  {
  }

  /** Distances and predecessors are kept for exactly the graph's nodes, and every
      distance lies between 0 and Infinity. */
  ghost predicate Shaped<N>(run: Run<N>, nodes: set<N>) {
    && run.distances.Keys == nodes
    && run.predecessors.Keys == nodes
    && forall n :: n in run.distances ==> 0 <= run.distances[n] <= Infinity
  }

  /** A node without predecessor still has its reset distance (0 for `start`,
      Infinity otherwise), and a node with a predecessor has been reached. */
  ghost predicate Rooted<N>(run: Run<N>, start: N) {
    forall n :: n in run.predecessors && n in run.distances ==>
      if run.predecessors[n].None? then run.distances[n] == (if n == start then 0 else Infinity)
      else run.distances[n] < Infinity
  }

  /** Along every predecessor link the distance does not grow, and where it stays
      the same the predecessor's link is older (`stamps` records when each link
      was set, all before `clock`). So no predecessor chain can close a cycle. */
  ghost predicate Ranked<N>(run: Run<N>, stamps: map<N, nat>, clock: nat) {
    && stamps.Keys == run.distances.Keys
    && (forall n :: n in stamps ==> stamps[n] < clock)
    && forall n :: n in run.predecessors && run.predecessors[n].Some? ==>
         var p := run.predecessors[n].value;
         && p in run.distances && n in run.distances
         && (run.distances[p] < run.distances[n] || (run.distances[p] == run.distances[n] && stamps[p] < stamps[n]))
  }

  /** Going through `from` with an edge of weight `w` is strictly shorter than
      the best distance known for `to`: the comparison of `relax`, in exact
      arithmetic. A non-negative edge can only improve a node farther than its
      source, and never one already within reach of it. */
  predicate Improves<N>(run: Run<N>, from: N, to: N, w: int)
    requires from in run.distances && to in run.distances
    ensures Improves(run, from, to, w) && 0 <= w ==> run.distances[from] < run.distances[to]
    ensures run.distances[to] <= run.distances[from] + w ==> !Improves(run, from, to, w)
  {
    run.distances[from] + w < run.distances[to]
  }

  /** One relaxation in exact arithmetic: on a strict improvement, `to` gets the
      shorter distance and `from` as its predecessor; otherwise nothing changes. */
  function RelaxStep<N>(run: Run<N>, from: N, to: N, w: int): (r: Run<N>)
    requires from in run.distances && to in run.distances
    ensures r.distances.Keys == run.distances.Keys
    ensures r.predecessors.Keys == run.predecessors.Keys + (if Improves(run, from, to, w) then {to} else {})
    ensures forall n :: n in run.distances ==> r.distances[n] <= run.distances[n]
    ensures forall n :: n in run.distances && n != to ==> r.distances[n] == run.distances[n]
    ensures forall n :: n in run.predecessors && n != to ==> r.predecessors[n] == run.predecessors[n]
    ensures Improves(run, from, to, w) ==> r.distances[to] == run.distances[from] + w && r.predecessors[to] == Some(from)
    ensures !Improves(run, from, to, w) ==> r == run
  {
    if Improves(run, from, to, w) then
      Run(run.distances[to := run.distances[from] + w], run.predecessors[to := Some(from)])
    else
      run
  }

  /** A relaxation through a non-negative weight keeps the ranking: the new link
      points to a node no farther away whose own link is older, and any link
      into the improved node now points to a strictly closer node. */
  lemma RelaxStepKeepsRanked<N>(run: Run<N>, stamps: map<N, nat>, clock: nat, from: N, to: N, w: int)
    requires Ranked(run, stamps, clock)
    requires from in run.distances && to in run.distances && w >= 0
    ensures Ranked(RelaxStep(run, from, to, w), if Improves(run, from, to, w) then stamps[to := clock] else stamps, clock + 1)
  {
    var r := RelaxStep(run, from, to, w);
    if Improves(run, from, to, w) {
      var s := stamps[to := clock];
      forall n | n in r.predecessors && r.predecessors[n].Some?
        ensures var p := r.predecessors[n].value;
                && p in r.distances && n in r.distances
                && (r.distances[p] < r.distances[n] || (r.distances[p] == r.distances[n] && s[p] < s[n]))
      {
        if n != to && r.predecessors[n].value == to {
          assert run.predecessors[n] == r.predecessors[n];
        }
      }
    }
  }

  /** A relaxation keeps the run's invariants when weights are not negative. */
  lemma RelaxStepKeepsInvariants<N>(run: Run<N>, stamps: map<N, nat>, clock: nat, nodes: set<N>, start: N, from: N, to: N, w: int)
    requires Shaped(run, nodes) && Ranked(run, stamps, clock) && Rooted(run, start)
    requires from in nodes && to in nodes && w >= 0
    ensures var r := RelaxStep(run, from, to, w);
            && Shaped(r, nodes) && Rooted(r, start)
            && Ranked(r, if Improves(run, from, to, w) then stamps[to := clock] else stamps, clock + 1)
  {
    RelaxStepKeepsRanked(run, stamps, clock, from, to, w);
  }

  /** The relaxations of the edges of `order`, one after another, each from the
      edge's first endpoint to its second: afterwards no distance is larger, and
      the second endpoint of each edge is no farther than the first endpoint
      was at the outset plus the edge's weight. */
  function RelaxAll<N>(run: Run<N>, order: seq<Edge<N>>): (r: Run<N>)
    requires forall k :: 0 <= k < |order| ==> order[k].a in run.distances && order[k].b in run.distances
    ensures r.distances.Keys == run.distances.Keys
    ensures forall n :: n in run.distances ==> r.distances[n] <= run.distances[n]
    ensures forall k :: 0 <= k < |order| ==> r.distances[order[k].b] <= run.distances[order[k].a] + order[k].weight as int
    decreases |order|
  {
    if order == [] then run
    else
      var prefix := order[..|order| - 1];
      var e := order[|order| - 1];
      assert forall k :: 0 <= k < |prefix| ==> prefix[k] == order[k];
      RelaxStep(RelaxAll(run, prefix), e.a, e.b, e.weight as int)
  }

  /** Relaxing one more edge of `order` extends the relaxations of its prefix. */
  lemma RelaxAllNext<N>(run: Run<N>, order: seq<Edge<N>>, i: nat)
    requires i < |order|
    requires forall k :: 0 <= k < |order| ==> order[k].a in run.distances && order[k].b in run.distances
    ensures RelaxAll(run, order[..i + 1]) == RelaxStep(RelaxAll(run, order[..i]), order[i].a, order[i].b, order[i].weight as int)
  {
    assert order[..i + 1][..i] == order[..i];
  }

  /** When every edge starts at `from` and has a weight that is not negative,
      `from` keeps its distance, and every distance that changes ends up no
      smaller than that of `from`. */
  lemma {:induction false} RelaxAllFrom<N>(run: Run<N>, order: seq<Edge<N>>, from: N)
    requires from in run.distances
    requires forall k :: 0 <= k < |order| ==> order[k].a == from && order[k].b in run.distances && order[k].weight >= 0
    ensures RelaxAll(run, order).distances[from] == run.distances[from]
    ensures forall n :: n in run.distances ==>
              RelaxAll(run, order).distances[n] == run.distances[n] || RelaxAll(run, order).distances[n] >= run.distances[from]
  {
    if order != [] {
      var prefix := order[..|order| - 1];
      assert forall k :: 0 <= k < |prefix| ==> prefix[k] == order[k];
      RelaxAllFrom(run, prefix, from);
    }
  }

  /** Relaxing an order that lists every edge of `s` brings the second
      endpoint of each edge of `s` within its first endpoint's old distance plus
      its weight. */
  lemma EnumeratedBound<N>(run: Run<N>, order: seq<Edge<N>>, s: set<Edge<N>>)
    requires forall k :: 0 <= k < |order| ==> order[k].a in run.distances && order[k].b in run.distances
    requires forall e :: e in s ==> e in order
    ensures forall e :: e in s ==> RelaxAll(run, order).distances[e.b] <= run.distances[e.a] + e.weight as int
  {
    forall e | e in s
      ensures RelaxAll(run, order).distances[e.b] <= run.distances[e.a] + e.weight as int
    {
      var k :| 0 <= k < |order| && order[k] == e;
    }
  }

  /** No edge reported at a node can lower a distance any further. */
  ghost predicate Relaxed<N>(distances: map<N, int>, adjacent: map<N, set<Edge<N>>>) {
    forall n, e :: n in distances && n in adjacent && e in adjacent[n] && e.b in distances ==>
      distances[e.b] <= distances[n] + e.weight as int
  }

  /** The invariant of the main loop over the visited nodes (those of `nodes`
      not in `remaining`): none is farther than a remaining node, and no edge
      reported at one of them can lower a distance any further. */
  ghost predicate Settled<N>(distances: map<N, int>, nodes: set<N>, remaining: set<N>, adjacent: map<N, set<Edge<N>>>) {
    && (forall v, u :: v in nodes && v !in remaining && u in remaining && v in distances && u in distances ==> distances[v] <= distances[u])
    && (forall v, e :: v in nodes && v !in remaining && v in adjacent && e in adjacent[v] && v in distances && e.b in distances ==>
          distances[e.b] <= distances[v] + e.weight as int)
  }

  /** Visiting a remaining node of least distance whose relaxations leave its
      own distance alone, change others only to values no smaller than it, and
      bring each of its edges' second endpoints within reach, keeps the visited
      nodes settled: their distances do not change. */
  lemma VisitKeepsSettled<N>(d: map<N, int>, d': map<N, int>, nodes: set<N>, remaining: set<N>, adjacent: map<N, set<Edge<N>>>, node: N)
    requires Settled(d, nodes, remaining, adjacent)
    requires remaining <= nodes && node in remaining && d.Keys == nodes && d'.Keys == nodes
    requires forall u :: u in remaining ==> d[node] <= d[u]
    requires forall n :: n in nodes ==> d'[n] <= d[n] && (d'[n] == d[n] || d'[n] >= d[node])
    requires node in adjacent && forall e :: e in adjacent[node] && e.b in nodes ==> d'[e.b] <= d[node] + e.weight as int
    ensures Settled(d', nodes, remaining - {node}, adjacent)
    ensures forall v :: v in nodes && v !in remaining ==> d'[v] == d[v]
  {
    forall v | v in nodes && v !in remaining
      ensures d'[v] == d[v]
    {
      assert d[v] <= d[node];
    }
  }

  /** `n`'s distance is `p`'s plus the weight of an edge reported at `p` that
      leads from `p` to `n`. */
  ghost predicate ReachedVia<N>(distances: map<N, int>, adjacent: map<N, set<Edge<N>>>, p: N, n: N) {
    && p in adjacent && p in distances && n in distances
    && exists e :: e in adjacent[p] && e.a == p && e.b == n && distances[n] == distances[p] + e.weight as int
  }

  /** Every predecessor link was set through an edge reported at the
      predecessor, and that edge still accounts for the whole distance step. */
  ghost predicate Attained<N>(run: Run<N>, adjacent: map<N, set<Edge<N>>>) {
    forall n :: n in run.predecessors && run.predecessors[n].Some? ==>
      ReachedVia(run.distances, adjacent, run.predecessors[n].value, n)
  }

  /** Every predecessor is a node already visited. */
  ghost predicate LinksVisited<N>(predecessors: map<N, Option<N>>, remaining: set<N>) {
    forall n :: n in predecessors && predecessors[n].Some? ==> predecessors[n].value !in remaining
  }

  /** From `run` to `r` the keys are kept and each node is either left as it
      was, or linked to `from` through an edge reported at `from`, at `from`'s
      distance plus the edge's weight. */
  ghost predicate LinkedFrom<N>(run: Run<N>, r: Run<N>, from: N, adjacent: map<N, set<Edge<N>>>) {
    && run.predecessors.Keys == run.distances.Keys
    && r.predecessors.Keys == run.predecessors.Keys && r.distances.Keys == run.distances.Keys
    && forall n :: n in run.predecessors ==>
         || (r.predecessors[n] == run.predecessors[n] && r.distances[n] == run.distances[n])
         || (r.predecessors[n] == Some(from) && ReachedVia(r.distances, adjacent, from, n))
  }

  /** One more relaxation of an edge reported at `from` and leading away from
      it, with a weight that is not negative, keeps that relation. */
  lemma RelaxStepLinks<N>(run: Run<N>, mid: Run<N>, from: N, e: Edge<N>, adjacent: map<N, set<Edge<N>>>)
    requires LinkedFrom(run, mid, from, adjacent)
    requires from in mid.distances && from in adjacent && e in adjacent[from]
    requires e.a == from && e.b in mid.distances && e.weight >= 0
    ensures LinkedFrom(run, RelaxStep(mid, from, e.b, e.weight as int), from, adjacent)
  {
    var r := RelaxStep(mid, from, e.b, e.weight as int);
    assert r.distances[from] == mid.distances[from];
    forall n | n in run.predecessors
      ensures || (r.predecessors[n] == run.predecessors[n] && r.distances[n] == run.distances[n])
              || (r.predecessors[n] == Some(from) && ReachedVia(r.distances, adjacent, from, n))
    {
      if n == e.b && Improves(mid, from, n, e.weight as int) {
        assert r.distances[n] == r.distances[from] + e.weight as int;
      } else if mid.predecessors[n] == Some(from) && ReachedVia(mid.distances, adjacent, from, n) {
        var f :| f in adjacent[from] && f.a == from && f.b == n && mid.distances[n] == mid.distances[from] + f.weight as int;
        assert r.distances[n] == r.distances[from] + f.weight as int;
      }
    }
  }

  /** Relaxing edges reported at `from`, all leading away from it with weights
      that are not negative, leaves each node either as it was, or linked to
      `from` through one of those edges at `from`'s distance plus its weight. */
  lemma {:induction false} RelaxAllLinks<N>(run: Run<N>, order: seq<Edge<N>>, from: N, adjacent: map<N, set<Edge<N>>>)
    requires from in run.distances && from in adjacent && run.predecessors.Keys == run.distances.Keys
    requires forall k :: 0 <= k < |order| ==>
               order[k].a == from && order[k].b in run.distances && order[k].weight >= 0 && order[k] in adjacent[from]
    ensures LinkedFrom(run, RelaxAll(run, order), from, adjacent)
  {
    if order != [] {
      var prefix := order[..|order| - 1];
      var e := order[|order| - 1];
      assert forall k :: 0 <= k < |prefix| ==> prefix[k] == order[k];
      RelaxAllLinks(run, prefix, from, adjacent);
      RelaxStepLinks(run, RelaxAll(run, prefix), from, e, adjacent);
    }
  }

  /** A round at a remaining node `node` keeps every link accounted for by a
      reported edge, when visited nodes and `node` keep their distances and each
      node is either left as it was or newly linked to `node` through one of
      its edges. */
  lemma VisitKeepsAttained<N>(run: Run<N>, run': Run<N>, adjacent: map<N, set<Edge<N>>>, nodes: set<N>, remaining: set<N>, node: N)
    requires Attained(run, adjacent) && LinksVisited(run.predecessors, remaining)
    requires run.predecessors.Keys == nodes && run'.predecessors.Keys == nodes
    requires run.distances.Keys == nodes && run'.distances.Keys == nodes
    requires node in remaining && remaining <= nodes
    requires forall v :: v in nodes && (v !in remaining || v == node) ==> run'.distances[v] == run.distances[v]
    requires LinkedFrom(run, run', node, adjacent)
    ensures Attained(run', adjacent) && LinksVisited(run'.predecessors, remaining - {node})
  {
    forall n | n in run'.predecessors && run'.predecessors[n].Some?
      ensures ReachedVia(run'.distances, adjacent, run'.predecessors[n].value, n)
      ensures run'.predecessors[n].value !in remaining - {node}
    {
      if run'.predecessors[n] == run.predecessors[n] && run'.distances[n] == run.distances[n] {
        var p := run.predecessors[n].value;
        assert ReachedVia(run.distances, adjacent, p, n);
        var f :| f in adjacent[p] && f.a == p && f.b == n && run.distances[n] == run.distances[p] + f.weight as int;
        assert run'.distances[n] == run'.distances[p] + f.weight as int;
      }
    }
  }

  /** The invariant of the main loop when every reported edge leads away from
      the node it is reported at: the visited nodes are settled, every link is
      accounted for by a reported edge, and every predecessor is visited. */
  ghost predicate Progress<N>(run: Run<N>, nodes: set<N>, remaining: set<N>, adjacent: map<N, set<Edge<N>>>) {
    && Settled(run.distances, nodes, remaining, adjacent)
    && Attained(run, adjacent)
    && LinksVisited(run.predecessors, remaining)
  }

  /** One round of the main loop at a remaining node of least distance, whose
      reported edges all lead away from it with weights that are not negative,
      keeps the invariant for the remaining nodes without it. */
  lemma RoundKeepsProgress<N>(run: Run<N>, order: seq<Edge<N>>, adjacent: map<N, set<Edge<N>>>, nodes: set<N>, remaining: set<N>, node: N)
    requires Progress(run, nodes, remaining, adjacent)
    requires run.predecessors.Keys == nodes && run.distances.Keys == nodes
    requires node in remaining && remaining <= nodes && forall u :: u in remaining ==> run.distances[node] <= run.distances[u]
    requires node in adjacent && Enumerates(order, adjacent[node])
    requires forall e :: e in adjacent[node] ==> e.a == node && e.b in nodes && e.weight >= 0
    ensures Progress(RelaxAll(run, order), nodes, remaining - {node}, adjacent)
  {
    RelaxAllLinks(run, order, node, adjacent);
    RelaxAllFrom(run, order, node);
    EnumeratedBound(run, order, adjacent[node]);
    var r := RelaxAll(run, order);
    VisitKeepsSettled(run.distances, r.distances, nodes, remaining, adjacent, node);
    VisitKeepsAttained(run, r, adjacent, nodes, remaining, node);
  }

  /** When no node remains, the invariant of the main loop says that no
      reported edge can lower a distance and that every link is accounted for. */
  lemma ProgressDone<N>(run: Run<N>, nodes: set<N>, adjacent: map<N, set<Edge<N>>>)
    requires Progress(run, nodes, {}, adjacent) && run.distances.Keys == nodes
    ensures Relaxed(run.distances, adjacent) && Attained(run, adjacent)
  {
  }

  /** `walk` follows `path`: its k-th edge is reported at `path[k]` and leads
      from `path[k]` to `path[k + 1]`. */
  ghost predicate Along<N>(adjacent: map<N, set<Edge<N>>>, path: seq<N>, walk: seq<Edge<N>>) {
    && |walk| == |path| - 1
    && forall k :: 0 <= k < |walk| ==>
         walk[k].a == path[k] && walk[k].b == path[k + 1] && path[k] in adjacent && walk[k] in adjacent[path[k]]
  }

  /** Following predecessor links that are all accounted for by reported edges
      gives a walk along the path whose length is exactly the distance gained
      from the path's first node to its last. */
  lemma {:induction false} ChainWalk<N>(run: Run<N>, adjacent: map<N, set<Edge<N>>>, path: seq<N>) returns (walk: seq<Edge<N>>)
    requires Attained(run, adjacent) && |path| >= 1 && path[0] in run.distances
    requires forall k :: 0 <= k < |path| - 1 ==> Lookup(run.predecessors, path[k + 1]) == Some(path[k])
    ensures Along(adjacent, path, walk)
    ensures path[|path| - 1] in run.distances && run.distances[path[|path| - 1]] == run.distances[path[0]] + Length(walk)
  {
    if |path| == 1 {
      walk := [];
    } else {
      var prefix := path[..|path| - 1];
      assert forall k :: 0 <= k < |prefix| ==> prefix[k] == path[k];
      var front := ChainWalk(run, adjacent, prefix);
      var p, n := path[|path| - 2], path[|path| - 1];
      assert Lookup(run.predecessors, n) == Some(p);
      assert ReachedVia(run.distances, adjacent, p, n);
      var e :| e in adjacent[p] && e.a == p && e.b == n && run.distances[n] == run.distances[p] + e.weight as int;
      walk := front + [e];
      assert walk[..|walk| - 1] == front;
    }
  }

  /** A predecessor chain whose links are all accounted for by reported edges,
      and which starts at `start` at distance 0, is a walk along reported edges
      whose length is the distance of its last node. */
  lemma PathAttains<N>(run: Run<N>, adjacent: map<N, set<Edge<N>>>, path: seq<N>, start: N)
    requires Attained(run, adjacent) && PredecessorChain(path, run.predecessors)
    requires path[|path| - 1] in run.distances && path[0] == start
    requires start in run.distances ==> run.distances[start] == 0
    ensures exists walk: seq<Edge<N>> :: Along(adjacent, path, walk) && Length(walk) == run.distances[path[|path| - 1]]
  {
    if |path| > 1 {
      assert Lookup(run.predecessors, path[1]) == Some(path[0]);
      assert ReachedVia(run.distances, adjacent, path[0], path[1]);
    }
    var walk := ChainWalk(run, adjacent, path);
  }

  /** A walk from `start` along reported edges: each edge is reported at its
      first endpoint and starts where the previous one ends. */
  ghost predicate Walk<N>(adjacent: map<N, set<Edge<N>>>, start: N, walk: seq<Edge<N>>) {
    && |walk| >= 1 && walk[0].a == start
    && (forall k :: 0 <= k < |walk| ==> walk[k].a in adjacent && walk[k] in adjacent[walk[k].a])
    && forall k :: 0 <= k < |walk| - 1 ==> walk[k].b == walk[k + 1].a
  }

  /** The total weight of a walk. */
  function Length<N>(walk: seq<Edge<N>>): int {
    if walk == [] then 0 else Length(walk[..|walk| - 1]) + walk[|walk| - 1].weight as int
  }

  /** A walk from a node of a graph whose reported edges join its nodes visits
      only nodes of the graph. */
  lemma {:induction false} WalkStaysIn<N>(adjacent: map<N, set<Edge<N>>>, nodes: set<N>, start: N, walk: seq<Edge<N>>)
    requires start in nodes && nodes <= adjacent.Keys
    requires forall n, e :: n in nodes && e in adjacent[n] ==> e.a in nodes && e.b in nodes
    requires Walk(adjacent, start, walk)
    ensures forall k :: 0 <= k < |walk| ==> walk[k].a in nodes && walk[k].b in nodes
  {
    if |walk| > 1 {
      var prefix := walk[..|walk| - 1];
      assert forall k :: 0 <= k < |prefix| ==> prefix[k] == walk[k];
      WalkStaysIn(adjacent, nodes, start, prefix);
      assert walk[|walk| - 1].a == prefix[|prefix| - 1].b;
    }
  }

  /** When no reported edge can lower a distance and `start` is at 0, the
      distance of a node is at most the length of every walk from `start` to it. */
  lemma {:induction false} NoShorterWalk<N>(distances: map<N, int>, adjacent: map<N, set<Edge<N>>>, start: N, walk: seq<Edge<N>>)
    requires Relaxed(distances, adjacent) && start in distances && distances[start] == 0
    requires Walk(adjacent, start, walk)
    requires forall k :: 0 <= k < |walk| ==> walk[k].a in distances && walk[k].b in distances
    ensures distances[walk[|walk| - 1].b] <= Length(walk)
  {
    var last := walk[|walk| - 1];
    if |walk| > 1 {
      var prefix := walk[..|walk| - 1];
      assert forall k :: 0 <= k < |prefix| ==> prefix[k] == walk[k];
      NoShorterWalk(distances, adjacent, start, prefix);
      assert last.a == prefix[|prefix| - 1].b;
    }
    assert distances[last.b] <= distances[last.a] + last.weight as int;
  }

  /** Once no reported edge can lower a distance, with `start` at 0, every walk
      from `start` ends at a node whose distance is at most the walk's length:
      each distance is a lower bound on the length of every route to its node. */
  lemma NoShorterWalkFrom<N>(distances: map<N, int>, adjacent: map<N, set<Edge<N>>>, nodes: set<N>, start: N)
    requires Relaxed(distances, adjacent) && distances.Keys == nodes && start in nodes && distances[start] == 0
    requires nodes <= adjacent.Keys && forall n, e :: n in nodes && e in adjacent[n] ==> e.a in nodes && e.b in nodes
    ensures forall walk: seq<Edge<N>> :: Walk(adjacent, start, walk) ==>
              walk[|walk| - 1].b in distances && distances[walk[|walk| - 1].b] <= Length(walk)
  {
    forall walk: seq<Edge<N>> | Walk(adjacent, start, walk)
      ensures walk[|walk| - 1].b in distances && distances[walk[|walk| - 1].b] <= Length(walk)
    {
      WalkStaysIn(adjacent, nodes, start, walk);
      NoShorterWalk(distances, adjacent, start, walk);
    }
  }

  /** The path holds predecessor links back to a node without predecessor:
      each node is the predecessor of the next one, the first has none. */
  ghost predicate PredecessorChain<N>(path: seq<N>, predecessors: map<N, Option<N>>) {
    && |path| >= 1
    && Lookup(predecessors, path[0]) == None
    && forall k :: 0 <= k < |path| - 1 ==> Lookup(predecessors, path[k + 1]) == Some(path[k])
  }

  /** `predecessors.get(x)`: None both for a node mapped to null and for an absent node. */
  function Lookup<N>(predecessors: map<N, Option<N>>, x: N): (r: Option<N>)
    ensures r.Some? ==> x in predecessors && predecessors[x] == r
    ensures x !in predecessors ==> r == None
  {
    if x in predecessors then predecessors[x] else None
  }

  /** `Collections.reverse`. */
  function Reversed<T>(s: seq<T>): (r: seq<T>)
    ensures |r| == |s| && forall k :: 0 <= k < |s| ==> r[k] == s[|s| - 1 - k]
  {
    if s == [] then [] else Reversed(s[1..]) + [s[0]]
  }

  class DijkstraPathCalculator<N(==)> {
    /** The graph's node set. */
    const nodes: set<N>
    /** The graph's answer to "which edges are at this node", for each node. */
    const adjacent: map<N, set<Edge<N>>>
    var distances: map<N, int>
    var predecessors: map<N, Option<N>>
    var remainingNodes: set<N>
    /** When each node's predecessor link was last set (see Ranked). */
    ghost var stamps: map<N, nat>
    ghost var clock: nat

    /** Every node can be asked for its edges, and every such edge joins two nodes. */
    ghost predicate GraphValid() {
      && nodes <= adjacent.Keys
      && forall n, e :: n in nodes && e in adjacent[n] ==> e.a in nodes && e.b in nodes
    }

    function State(): Run<N>
      reads this`distances, this`predecessors
    {
      Run(distances, predecessors)
    }

    constructor (nodes: set<N>, adjacent: map<N, set<Edge<N>>>)
      ensures this.nodes == nodes && this.adjacent == adjacent
      ensures distances == map[] && predecessors == map[] && remainingNodes == {}
    {
      this.nodes := nodes;
      this.adjacent := adjacent;
      distances, predecessors, remainingNodes := map[], map[], {};
      stamps, clock := map[], 0;
    }

    /** The first pass of the reset: distance 0 for `start`, Infinity for every other node. */
    method ResetDistances(start: N) returns (dist: map<N, int>)
      ensures dist == InitialRun(nodes, start).distances
    {
      dist := map[];
      var rest := nodes;
      while rest != {}
        invariant rest <= nodes
        invariant dist.Keys == nodes - rest
        invariant forall n :: n in dist ==> dist[n] == if n == start then 0 else Infinity
        decreases |rest|
      {
        var node :| node in rest;
        dist := dist[node := if node == start then 0 else Infinity];
        rest := rest - {node};
      }
    }

    /** The second pass of the reset: no predecessor (null) for every node. */
    method ResetPredecessors() returns (pred: map<N, Option<N>>)
      ensures pred.Keys == nodes && forall n :: n in pred ==> pred[n] == None
    {
      pred := map[];
      var rest := nodes;
      while rest != {}
        invariant rest <= nodes
        invariant pred.Keys == nodes - rest
        invariant forall n :: n in pred ==> pred[n] == None
        decreases |rest|
      {
        var node :| node in rest;
        pred := pred[node := None];
        rest := rest - {node};
      }
    }

    /** Clears the state and refills it for a run from `start`: distance 0 for
        `start`, Infinity for every other node, no predecessors, every node remaining. */
    method Init(start: N)
      modifies this`distances, this`predecessors, this`remainingNodes, this`stamps, this`clock
      ensures State() == InitialRun(nodes, start)
      ensures remainingNodes == nodes
      ensures stamps == (map n | n in nodes :: 0) && clock == 1
      ensures Consistent(start)
    {
      distances := ResetDistances(start);
      predecessors := ResetPredecessors();
      assert predecessors == InitialRun(nodes, start).predecessors;
      remainingNodes := nodes;
      stamps, clock := map n | n in nodes :: 0, 1;
      InitialRunRanked(nodes, start);
    }

    /** The reduction `(x, y) -> distances[x] < distances[y] ? x : y` over the
        remaining nodes listed in `order` (the set's stream order): a node of
        least distance, with ties going to the later one. */
    function ExtractMin(order: seq<N>): (node: N)
      reads this
      requires |order| > 0 && forall k :: 0 <= k < |order| ==> order[k] in distances
      ensures node in order
      ensures forall k :: 0 <= k < |order| ==> distances[node] <= distances[order[k]]
    {
      if |order| == 1 then order[0]
      else
        var x := ExtractMin(order[..|order| - 1]);
        var y := order[|order| - 1];
        if distances[x] < distances[y] then x else y
    }

    /** Lowers the distance of `to` to that of `from` plus the edge's weight, with
        `from` as predecessor, when that is strictly shorter; otherwise nothing changes. */
    method Relax(from: N, to: N, edge: Edge<N>)
      requires from in distances && to in distances
      modifies this`distances, this`predecessors, this`stamps, this`clock
      ensures State() == RelaxStep(old(State()), from, to, edge.weight as int)
      ensures stamps == if Improves(old(State()), from, to, edge.weight as int) then old(stamps)[to := old(clock)] else old(stamps)
      ensures clock == old(clock) + 1
    {
      if distances[from] + edge.weight as int < distances[to] {
        distances := distances[to := distances[from] + edge.weight as int];
        predecessors := predecessors[to := Some(from)];
        stamps := stamps[to := clock];
      }
      clock := clock + 1;
    }

    /** Walks the predecessor links back from `end` until a node without one,
        then reverses the walk. The path starts at `start` exactly when `end`
        was reached; an unreached or unknown `end` gives the path `[end]`. */
    method ReconstructPath(start: N, end: N) returns (path: seq<N>)
      requires Consistent(start)
      ensures |path| >= 1 && path[|path| - 1] == end && PredecessorChain(path, predecessors)
      ensures end in nodes && distances[end] < Infinity ==> path[0] == start
      ensures end !in nodes || distances[end] == Infinity ==> path == [end]
    {
      var x := end;
      var list := [x];
      var next := Lookup(predecessors, x);
      while next.Some?
        invariant |list| >= 1 && list[0] == end && list[|list| - 1] == x
        invariant next == Lookup(predecessors, x)
        invariant forall k :: 0 <= k < |list| - 1 ==> Lookup(predecessors, list[k]) == Some(list[k + 1])
        invariant |list| > 1 ==> x in nodes
        invariant end in nodes ==> x in nodes && distances[x] <= distances[end]
        invariant end !in nodes || distances[end] == Infinity ==> list == [end]
        decreases if x in distances then distances[x] else 0, if x in stamps then stamps[x] else 0
      {
        x := next.value;
        list := list + [x];
        next := Lookup(predecessors, x);
      }
      path := Reversed(list);
      forall k | 0 <= k < |path| - 1
        ensures Lookup(predecessors, path[k + 1]) == Some(path[k])
      {
        assert path[k + 1] == list[|list| - 2 - k] && path[k] == list[|list| - 1 - k];
      }
    }

    /** The run's invariants (see Shaped, Rooted, Ranked), with `start` kept at distance 0. */
    ghost predicate Consistent(start: N)
      reads this`distances, this`predecessors, this`stamps, this`clock
    {
      && Shaped(State(), nodes) && Ranked(State(), stamps, clock) && Rooted(State(), start)
      && (start in nodes ==> distances[start] == 0)
    }

    /** The inner loop: relaxes every edge the graph reports at `node`, from the
        edge's first endpoint to its second, in the edge set's iteration order
        `order`. Each edge's second endpoint ends up no farther than its first
        endpoint was plus the weight. When every reported edge starts at
        `node`, `node` keeps its distance and no distance drops below it. */
    method RelaxEdges(start: N, node: N) returns (ghost order: seq<Edge<N>>)
      requires GraphValid() && NonNegative() && node in nodes && Consistent(start)
      modifies this`distances, this`predecessors, this`stamps, this`clock
      ensures Consistent(start)
      ensures Enumerates(order, adjacent[node])
      ensures State() == RelaxAll(old(State()), order)
      ensures forall e :: e in adjacent[node] ==> distances[e.b] <= old(distances[e.a]) + e.weight as int
      ensures forall n :: n in nodes ==> distances[n] <= old(distances[n])
      ensures OutgoingAt(node) ==> forall n :: n in nodes ==> distances[n] == old(distances[n]) || distances[n] >= old(distances[node])
    {
      var listing := Enumerate(adjacent[node]);
      order := listing;
      RelaxInOrder(start, listing);
      EnumeratedBound(old(State()), order, adjacent[node]);
      if OutgoingAt(node) {
        RelaxAllFrom(old(State()), order, node);
      }
    }

    /** Relaxes the edges of `order` one after another, each from its first
        endpoint to its second. */
    method RelaxInOrder(start: N, order: seq<Edge<N>>)
      requires Consistent(start)
      requires forall k :: 0 <= k < |order| ==> order[k].a in nodes && order[k].b in nodes && order[k].weight >= 0
      modifies this`distances, this`predecessors, this`stamps, this`clock
      ensures Consistent(start) && State() == RelaxAll(old(State()), order)
    {
      ghost var run := State();
      assert run.distances.Keys == nodes;
      var i := 0;
      while i < |order|
        invariant 0 <= i <= |order|
        invariant Consistent(start)
        invariant State() == RelaxAll(run, order[..i])
      {
        var x := order[i];
        RelaxAllNext(run, order, i);
        RelaxStepKeepsInvariants(State(), stamps, clock, nodes, start, x.a, x.b, x.weight as int);
        Relax(x.a, x.b, x);
        i := i + 1;
      }
      assert order[..i] == order;
    }

    /** Every edge the graph reports has a weight that is not negative. */
    ghost predicate NonNegative() {
      forall n, e :: n in nodes && n in adjacent && e in adjacent[n] ==> e.weight >= 0
    }

    /** Every edge the graph reports at `node` starts at `node`. */
    ghost predicate OutgoingAt(node: N) {
      node in adjacent && forall e :: e in adjacent[node] ==> e.a == node
    }

    /** Every edge the graph reports at a node starts at that node, as with the
        adjacency graph, whose reported edges are turned to start there. */
    ghost predicate Outgoing() {
      forall n :: n in nodes ==> OutgoingAt(n)
    }

    /** One round of the main loop: takes a node of least distance out of the
        remaining ones and relaxes the edges the graph reports at it (`order`
        is their iteration order). When every reported edge starts at the node
        it is reported at, the round keeps the main loop's invariant. */
    method VisitNext(start: N) returns (node: N, ghost order: seq<Edge<N>>)
      requires GraphValid() && NonNegative() && Consistent(start)
      requires remainingNodes != {} && remainingNodes <= nodes
      modifies this`distances, this`predecessors, this`remainingNodes, this`stamps, this`clock
      ensures Consistent(start)
      ensures node in old(remainingNodes) && remainingNodes == old(remainingNodes) - {node}
      ensures |remainingNodes| == |old(remainingNodes)| - 1
      ensures forall n :: n in old(remainingNodes) ==> old(distances[node]) <= old(distances[n])
      ensures Enumerates(order, adjacent[node]) && State() == RelaxAll(old(State()), order)
      ensures forall e :: e in adjacent[node] ==> distances[e.b] <= old(distances[e.a]) + e.weight as int
      ensures forall n :: n in nodes ==> distances[n] <= old(distances[n])
      ensures OutgoingAt(node) ==> forall n :: n in nodes ==> distances[n] == old(distances[n]) || distances[n] >= old(distances[node])
      ensures Outgoing() && Progress(old(State()), nodes, old(remainingNodes), adjacent) ==>
                Progress(State(), nodes, remainingNodes, adjacent)
    {
      ghost var before, remaining := State(), remainingNodes;
      node := TakeMin();
      order := RelaxEdges(start, node);
      if Outgoing() && Progress(before, nodes, remaining, adjacent) {
        assert forall e :: e in adjacent[node] ==> e.a == node && e.b in nodes && e.weight >= 0 by {
          assert OutgoingAt(node);
        }
        RoundKeepsProgress(before, order, adjacent, nodes, remaining, node);
      }
    }

    /** Takes a remaining node of least distance out of the remaining nodes,
        in the way `extractMin` reduces them in their iteration order. */
    method TakeMin() returns (node: N)
      requires remainingNodes != {} && remainingNodes <= distances.Keys
      modifies this`remainingNodes
      ensures node in old(remainingNodes) && remainingNodes == old(remainingNodes) - {node}
      ensures |remainingNodes| == |old(remainingNodes)| - 1
      ensures forall n :: n in old(remainingNodes) ==> distances[node] <= distances[n]
    {
      var listing := Enumerate(remainingNodes);
      node := ExtractMin(listing);
      forall n | n in remainingNodes
        ensures distances[node] <= distances[n]
      {
        var k :| 0 <= k < |listing| && listing[k] == n;
      }
      remainingNodes := remainingNodes - {node};
    }

    /** The main loop of the calculation: reset, then take every node in turn by
        least distance and relax the edges the graph reports at it; it runs
        exactly once per node. When every reported edge starts at the node it
        is reported at, no reported edge can lower a distance afterwards, and
        every predecessor link is accounted for by a reported edge. */
    method Explore(start: N) returns (ghost rounds: nat)
      requires GraphValid() && NonNegative()
      modifies this`distances, this`predecessors, this`remainingNodes, this`stamps, this`clock
      ensures remainingNodes == {} && rounds == |nodes| && Consistent(start)
      ensures Outgoing() ==> Relaxed(distances, adjacent) && Attained(State(), adjacent)
    {
      Init(start);
      rounds := 0;
      while remainingNodes != {}
        invariant remainingNodes <= nodes && rounds + |remainingNodes| == |nodes|
        invariant Consistent(start)
        invariant Outgoing() ==> Progress(State(), nodes, remainingNodes, adjacent)
        decreases |remainingNodes|
      {
        var node;
        ghost var order;
        node, order := VisitNext(start);
        rounds := rounds + 1;
      }
      if Outgoing() {
        ProgressDone(State(), nodes, adjacent);
      }
    }

    /** The shortest path from `start` to `end`: explore from `start`, then
        rebuild the path. Weights are assumed not negative, as the algorithm
        requires. When every reported edge starts at the node it is reported at,
        the path is a shortest one: its reported edges add up to exactly the
        distance found for `end` (see PathAttains), and no walk from `start` is
        shorter than the distance of the node it reaches (see NoShorterWalk). */
    method CalculatePath(start: N, end: N) returns (path: seq<N>)
      requires GraphValid() && NonNegative()
      modifies this`distances, this`predecessors, this`remainingNodes, this`stamps, this`clock
      ensures remainingNodes == {} && Consistent(start)
      ensures Outgoing() ==> Relaxed(distances, adjacent)
      ensures Outgoing() && end in nodes && distances[end] < Infinity ==>
                exists walk: seq<Edge<N>> :: Along(adjacent, path, walk) && Length(walk) == distances[end]
      ensures Outgoing() && start in nodes ==> forall walk: seq<Edge<N>> :: Walk(adjacent, start, walk) ==>
                walk[|walk| - 1].b in distances && distances[walk[|walk| - 1].b] <= Length(walk)
      ensures |path| >= 1 && path[|path| - 1] == end && PredecessorChain(path, predecessors)
      ensures end in nodes && distances[end] < Infinity ==> path[0] == start
      ensures end !in nodes || distances[end] == Infinity ==> path == [end]
    {
      ghost var rounds := Explore(start);
      if Outgoing() && start in nodes {
        NoShorterWalkFrom(distances, adjacent, nodes, start);
      }
      path := ReconstructPath(start, end);
      if Outgoing() && end in nodes && distances[end] < Infinity {
        PathAttains(State(), adjacent, path, start);
      }
    }
  }

  // ---------------------------------------------------------------------------
  // The relaxation as the code writes it: Java `int` addition, which wraps.

  /** The per-run state with Java `int` distances. */
  datatype Run32<N> = Run32(distances: map<N, int32>, predecessors: map<N, Option<N>>)

  /** `relax` as written: the sum `distances.get(from) + edge.weight()` is a
      32-bit sum, so from a node still at `Integer.MAX_VALUE` a positive weight
      wraps around to a very small distance, which then counts as an improvement. */
  function RelaxAsWritten<N>(run: Run32<N>, from: N, to: N, w: int32): (r: Run32<N>)
    requires from in run.distances && to in run.distances
    ensures r.distances.Keys == run.distances.Keys
    ensures forall n :: n in run.distances ==> r.distances[n] <= run.distances[n]
    ensures Add32(run.distances[from], w) < run.distances[to] ==> to in r.predecessors && r.predecessors[to] == Some(from)
    ensures (run.distances[from] == MaxInt && w > 0 && -0x8000_0000 + w as int - 1 < run.distances[to] as int) ==>
              && r.distances[to] as int == -0x8000_0000 + w as int - 1
              && to in r.predecessors && r.predecessors[to] == Some(from)
  {
    var sum := Add32(run.distances[from], w);
    if sum < run.distances[to] then
      Run32(run.distances[to := sum], run.predecessors[to := Some(from)])
    else
      run
  }

  /** The node reached from `x` by following `k` predecessor links, if the chain is that long. */
  function Ancestor<N>(predecessors: map<N, Option<N>>, x: N, k: nat): Option<N> {
    if k == 0 then Some(x)
    else match Ancestor(predecessors, x, k - 1)
      case None => None
      case Some(y) => Lookup(predecessors, y)
  }

  /** The predecessors left by the run of the example below. */
  function CyclicPredecessors(): map<int, Option<int>> {
    map[0 := None, 1 := Some(2), 2 := Some(1)]
  }

  /** The discrepancy on concrete values: nodes 0, 1, 2 and one edge (1, 2) of
      weight 1, reported at both ends, and a run from 0. Node 0 is taken first
      and has no edges, which leaves the state `afterStart`: 1 and 2 both sit at
      `Integer.MAX_VALUE`, and 1 may be taken next. Relaxing (1, 2) wraps to
      `Integer.MIN_VALUE`, so 2 is taken next, and relaxing (2, 1) makes 2 the
      predecessor of 1 while 1 is already the predecessor of 2. */
  lemma WrappedRelaxClosesCycle()
    ensures var afterStart := Run32(map[0 := 0 as int32, 1 := MaxInt, 2 := MaxInt], map[0 := None, 1 := None, 2 := None]);
            var first := RelaxAsWritten(afterStart, 1, 2, 1);
            var second := RelaxAsWritten(first, 2, 1, 1);
            && afterStart.distances[1] <= afterStart.distances[2]
            && first.distances[2] == -0x8000_0000
            && second.predecessors == CyclicPredecessors()
  {
  }

  /** With the predecessors of that run, the walk back from node 1 never reaches a
      node without predecessor, so the path reconstruction's loop never ends. */
  lemma {:induction false} WrappedWalkNeverEnds(k: nat)
    ensures Ancestor(CyclicPredecessors(), 1, k) == Some(if k % 2 == 0 then 1 else 2)
  {
    if k > 0 {
      WrappedWalkNeverEnds(k - 1);
    }
  }

  /** In exact arithmetic the same step changes nothing: a node still at
      Infinity never improves another through a non-negative weight. */
  lemma UnreachedNeverImproves<N>(run: Run<N>, nodes: set<N>, from: N, to: N, w: int)
    requires Shaped(run, nodes) && from in nodes && to in nodes
    requires run.distances[from] == Infinity && w >= 0
    ensures RelaxStep(run, from, to, w) == run
  {
  }
}
