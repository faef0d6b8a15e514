/** map_direct_save.py, bfs_shortest_path: breadth-first search over the grid
    graph from a start cell to the nearest of several target cells, followed
    by the walk back along the predecessor links. */
module Bfs {
  import opened Frames
  import opened Grid

  // ---------------------------------------------------------------------------
  // Walks and distances

  /** A walk: a non-empty sequence of cells, each step taken along the
      adjacency list of a node. A single cell is a walk of no steps. */
  ghost predicate IsWalk(adj: Graph, w: seq<Point>)
  {
    |w| >= 1 && forall i :: 0 <= i < |w| - 1 ==> w[i] in adj && w[i + 1] in adj[w[i]]
  }

  /** Every walk from start to v takes at least n steps. */
  ghost predicate NoWalkShorter(adj: Graph, start: Point, v: Point, n: nat)
  {
    forall w {:trigger IsWalk(adj, w)} :: IsWalk(adj, w) && w[0] == start && w[|w| - 1] == v ==> |w| - 1 >= n
  }

  /** No target can be reached in fewer than n steps. */
  ghost predicate Nearest(adj: Graph, start: Point, targets: seq<Point>, n: nat)
  {
    forall t :: t in targets ==> NoWalkShorter(adj, start, t, n)
  }

  /** v can be reached from start. */
  ghost predicate ReachesCell(adj: Graph, start: Point, v: Point)
  {
    exists w {:trigger IsWalk(adj, w)} :: IsWalk(adj, w) && w[0] == start && w[|w| - 1] == v
  }

  /** Some target can be reached from start. */
  ghost predicate ReachesTarget(adj: Graph, start: Point, targets: seq<Point>)
  {
    exists w {:trigger IsWalk(adj, w)} :: IsWalk(adj, w) && w[0] == start && w[|w| - 1] in targets
  }

  /** Every listed neighbour is itself a node, as in every graph build_graph
      returns. */
  ghost predicate Closed(adj: Graph)
  {
    forall p, v :: p in adj && v in adj[p] ==> v in adj
  }

  /** The cells a search from start can ever touch. */
  ghost function Universe(adj: Graph, start: Point): set<Point>
  {
    {start} + adj.Keys + (set p, v | p in adj && v in adj[p] :: v)
  }

  /** The predecessor links a search leaves behind: start has none, every
      other reached cell has one, one step closer to start along the
      predecessor's adjacency list. */
  ghost predicate PredecessorTree(adj: Graph, start: Point, prev: map<Point, Point>, dist: map<Point, nat>)
  {
    && start in dist && dist[start] == 0
    && prev.Keys == dist.Keys - {start}
    && (forall v :: v in prev ==>
          prev[v] in dist && prev[v] in adj && v in adj[prev[v]] && dist[v] == dist[prev[v]] + 1)
  }

  // ---------------------------------------------------------------------------
  // The search loop (map_direct_save.py:58-71)

  /** order lists the enqueued cells, start first; visited is exactly what
      was enqueued and has as many cells as order has entries, so no cell
      was enqueued twice; head cells have been taken from the queue. */
  ghost predicate Enqueued(start: Point, order: seq<Point>, head: nat, visited: set<Point>)
  {
    && head <= |order| && |order| >= 1 && order[0] == start
    && (forall x :: x in visited <==> x in order)
    && |visited| == |order|
  }

  /** The first head cells of order were expanded: each is a node, is not a
      target, and has all its neighbours enqueued. */
  ghost predicate Expanded(adj: Graph, targets: seq<Point>, order: seq<Point>, head: nat, visited: set<Point>)
  {
    forall k :: 0 <= k < head && k < |order| ==>
      order[k] in adj && order[k] !in targets && forall n :: n in adj[order[k]] ==> n in visited
  }

  /** No recorded distance can be beaten. */
  ghost predicate DistExact(adj: Graph, start: Point, dist: map<Point, nat>)
  {
    forall v :: v in dist ==> NoWalkShorter(adj, start, v, dist[v])
  }

  /** What holds of the search once head cells have been taken from the queue
      and expanded. */
  ghost predicate Explored(adj: Graph, start: Point, targets: seq<Point>, order: seq<Point>, head: nat,
                           visited: set<Point>, prev: map<Point, Point>, dist: map<Point, nat>)
  {
    && Enqueued(start, order, head, visited)
    && PredecessorTree(adj, start, prev, dist) && dist.Keys == visited
    && Expanded(adj, targets, order, head, visited)
    && DistExact(adj, start, dist)
  }

  /** The queue order[head..] holds two layers: the cells before mid are at
      distance level, the ones from mid on at distance level + 1. */
  ghost predicate Layered(order: seq<Point>, dist: map<Point, nat>, head: nat, mid: nat, level: nat)
  {
    && head <= mid <= |order| && (head < |order| ==> head < mid)
    && (forall k :: head <= k < |order| ==> order[k] in dist)
    && (forall k :: head <= k < mid ==> dist[order[k]] == level)
    && (forall k :: mid <= k < |order| ==> dist[order[k]] == level + 1)
  }

  /** The cells of s. */
  ghost function Cells(s: seq<Point>): set<Point>
  {
    set x | x in s
  }

  /** The cells the for-loop over nbs enqueues when the cells of seen are
      already visited: those not in seen, in list order, each once. */
  function Fresh(nbs: seq<Point>, seen: set<Point>): (r: seq<Point>)
    ensures forall x :: x in r <==> x in nbs && x !in seen
    decreases |nbs|
  {
    if nbs == [] then []
    else
      var f, v := Fresh(nbs[..|nbs| - 1], seen), nbs[|nbs| - 1];
      assert forall x :: x in nbs <==> x in nbs[..|nbs| - 1] || x == v by {
        assert nbs == nbs[..|nbs| - 1] + [v];
      }
      if v in seen || v in f then f else f + [v]
  }

  /** order is the queue of a breadth-first search from start that has
      expanded its first head cells: ends[h] is the length of the queue when
      order[h] was taken from it, and expanding order[h] appended exactly its
      neighbours not enqueued before, in list order. */
  ghost predicate Trace(adj: Graph, start: Point, order: seq<Point>, ends: seq<nat>, head: nat)
  {
    && |order| >= 1 && order[0] == start
    && |ends| == head + 1 && ends[0] == 1 && ends[head] == |order|
    && forall h :: 0 <= h < head ==> Expansion(adj, order, ends, h)
  }

  /** order[h] was taken from the queue when it held ends[h] cells, and its
      expansion appended exactly its neighbours not enqueued before, in list
      order. */
  ghost predicate Expansion(adj: Graph, order: seq<Point>, ends: seq<nat>, h: nat)
  {
    && h + 1 < |ends| && h < ends[h] <= ends[h + 1] <= |order| && order[h] in adj
    && order[ends[h]..ends[h + 1]] == Fresh(adj[order[h]], Cells(order[..ends[h]]))
  }

  /** The cell at position k of a trace was enqueued by the expansion of the
      cell at position h. */
  ghost predicate EnqueuedAt(order: seq<Point>, ends: seq<nat>, head: nat, h: int, k: int)
  {
    0 <= h < head && h + 1 < |ends| && ends[h] <= k < ends[h + 1] && h < |order| && k < |order|
  }

  /** Each enqueued cell has as predecessor the cell whose expansion
      enqueued it. */
  ghost predicate Links(order: seq<Point>, ends: seq<nat>, head: nat, prev: map<Point, Point>)
  {
    forall h, k :: EnqueuedAt(order, ends, head, h, k) ==> order[k] in prev && prev[order[k]] == order[h]
  }

  /** v was enqueued by the expansion of p. */
  ghost predicate EnqueuedBy(order: seq<Point>, ends: seq<nat>, head: nat, p: Point, v: Point)
  {
    exists h, k :: EnqueuedAt(order, ends, head, h, k) && order[h] == p && order[k] == v
  }

  /** What the search loop keeps once head cells have been taken from the
      queue and expanded. */
  ghost predicate Searching(adj: Graph, start: Point, targets: seq<Point>, order: seq<Point>, ends: seq<nat>,
                            head: nat, visited: set<Point>, prev: map<Point, Point>, dist: map<Point, nat>,
                            mid: nat, level: nat)
  {
    && Explored(adj, start, targets, order, head, visited, prev, dist)
    && Layered(order, dist, head, mid, level)
    && Trace(adj, start, order, ends, head) && Links(order, ends, head, prev)
    && visited <= Universe(adj, start) && |visited| <= |Universe(adj, start)|
    && (Closed(adj) && start in adj ==> visited <= adj.Keys)
  }

  /** What the while-queue loop of bfs_shortest_path leaves behind. missing
      is the cell whose adj lookup raised KeyError: the first cell taken
      from the queue that is not a node, with no target taken before it.
      Otherwise u is the last
      cell taken from the queue and found says whether it is a target; order
      lists the cells in the order they were enqueued, ends the queue length
      before each expansion, expanded how many cells were expanded and dist
      their distance from start. */
  ghost predicate SearchOutcome(adj: Graph, start: Point, targets: seq<Point>, missing: Option<Point>, found: bool,
                                u: Point, prev: map<Point, Point>, visited: set<Point>, order: seq<Point>,
                                ends: seq<nat>, expanded: nat, dist: map<Point, nat>)
  {
    && (missing.Some? ==> Raised(adj, start, targets, order, ends, expanded, missing.value))
    && (start !in adj && start !in targets ==> missing == Some(start))
    && (Closed(adj) && start in adj ==> missing.None?)
    && (start in targets ==> missing.None? && found && u == start)
    && (missing.None? ==>
          // cells are enqueued in breadth-first order, each once, with
          // their exact distance and a predecessor one step closer
          && Explored(adj, start, targets, order, expanded, visited, prev, dist)
          && Trace(adj, start, order, ends, expanded) && Links(order, ends, expanded, prev)
          // the loop stops at the first target dequeued, a nearest one
          && (found ==> && expanded < |order| && u == order[expanded] && u in targets
                        && Nearest(adj, start, targets, dist[u]))
          // otherwise it runs until the queue is empty
          && (!found ==> expanded == |order| && u == order[expanded - 1]))
  }

  /** The while-queue loop of bfs_shortest_path (map_direct_save.py:61-71). */
  method Search(adj: Graph, start: Point, targets: seq<Point>)
    returns (missing: Option<Point>, found: bool, u: Point, prev: map<Point, Point>, visited: set<Point>,
             ghost order: seq<Point>, ghost ends: seq<nat>, ghost expanded: nat, ghost dist: map<Point, nat>)
    ensures SearchOutcome(adj, start, targets, missing, found, u, prev, visited, order, ends, expanded, dist)
  {
    var targetSet := set t | t in targets;
    prev := map[];
    visited := {start};
    var queue := [start];
    order := [start];
    ends := [1];
    dist := map[start := 0];
    ghost var head: nat := 0;
    ghost var mid: nat := 1;
    ghost var level: nat := 0;
    SearchStart(adj, start, targets);
    u := start;
    found := false;
    missing := None;
    expanded := 0;

    while queue != []
      invariant Searching(adj, start, targets, order, ends, head, visited, prev, dist, mid, level)
      invariant queue == order[head..]
      invariant head > 0 ==> u == order[head - 1]
      decreases |Universe(adj, start)| - |visited|, |queue|
    {
      u := queue[0];
      queue := queue[1..];
      if u in targetSet {
        found := true;
        expanded := head;
        FoundOutcome(adj, start, targets, order, ends, head, visited, prev, dist, mid, level, u);
        return;
      }
      if u !in adj {
        missing := Some(u);
        expanded := head;
        MissingOutcome(adj, start, targets, order, ends, head, visited, prev, dist, mid, level, u);
        return;
      }
      visited, prev, queue, order, ends, dist, mid, level :=
        Expand(adj, start, targets, u, visited, prev, queue, order, ends, head, dist, mid, level);
      head := head + 1;
    }
    expanded := head;
    EmptyOutcome(adj, start, targets, order, ends, head, visited, prev, dist, mid, level);
  }

  /** The loop stops at a target u taken from the queue. */
  lemma FoundOutcome(adj: Graph, start: Point, targets: seq<Point>, order: seq<Point>, ends: seq<nat>, head: nat,
                     visited: set<Point>, prev: map<Point, Point>, dist: map<Point, nat>, mid: nat, level: nat,
                     u: Point)
    requires Searching(adj, start, targets, order, ends, head, visited, prev, dist, mid, level)
    requires head < |order| && u == order[head] && u in targets
    ensures SearchOutcome(adj, start, targets, None, true, u, prev, visited, order, ends, head, dist)
  {
    NearestTarget(adj, start, targets, order, head, visited, dist, mid, level, u);
    if head > 0 {
      assert order[0] in adj && order[0] !in targets;
    }
  }

  /** The loop stops at a cell u taken from the queue that is not a node. */
  lemma MissingOutcome(adj: Graph, start: Point, targets: seq<Point>, order: seq<Point>, ends: seq<nat>, head: nat,
                       visited: set<Point>, prev: map<Point, Point>, dist: map<Point, nat>, mid: nat, level: nat,
                       u: Point)
    requires Searching(adj, start, targets, order, ends, head, visited, prev, dist, mid, level)
    requires head < |order| && u == order[head] && u !in targets && u !in adj
    ensures SearchOutcome(adj, start, targets, Some(u), false, u, prev, visited, order, ends, head, dist)
  {
    assert u in visited;
    if head > 0 {
      assert order[0] in adj && order[0] !in targets;
    }
  }

  /** The queue runs empty after head expansions. */
  lemma EmptyOutcome(adj: Graph, start: Point, targets: seq<Point>, order: seq<Point>, ends: seq<nat>, head: nat,
                     visited: set<Point>, prev: map<Point, Point>, dist: map<Point, nat>, mid: nat, level: nat)
    requires Searching(adj, start, targets, order, ends, head, visited, prev, dist, mid, level)
    requires head == |order|
    ensures SearchOutcome(adj, start, targets, None, false, order[head - 1], prev, visited, order, ends, head, dist)
  {
    assert order[0] in adj && order[0] !in targets;
  }

  /** Once the queue is empty every enqueued cell has been expanded: each is
      a node whose neighbours were all enqueued. */
  lemma AllExpanded(adj: Graph, start: Point, targets: seq<Point>, order: seq<Point>,
                    visited: set<Point>, prev: map<Point, Point>, dist: map<Point, nat>)
    requires Explored(adj, start, targets, order, |order|, visited, prev, dist)
    ensures start in visited
    ensures forall v :: v in visited ==> v in adj && v !in targets && forall n :: n in adj[v] ==> n in visited
  {
    assert order[0] in order;
    forall v | v in visited ensures v in adj && v !in targets && forall n :: n in adj[v] ==> n in visited {
      var k :| 0 <= k < |order| && order[k] == v;
    }
  }

  /** The for-loop over adj[u] (map_direct_save.py:68-71): every neighbour of
      u not yet visited is marked visited, given u as predecessor and put at
      the back of the queue, in list order. Afterwards u counts as expanded. */
  method Expand(adj: Graph, start: Point, targets: seq<Point>, u: Point,
                visited0: set<Point>, prev0: map<Point, Point>, queue0: seq<Point>,
                ghost order0: seq<Point>, ghost ends0: seq<nat>, ghost head: nat, ghost dist0: map<Point, nat>,
                ghost mid0: nat, ghost level0: nat)
    returns (visited: set<Point>, prev: map<Point, Point>, queue: seq<Point>,
             ghost order: seq<Point>, ghost ends: seq<nat>, ghost dist: map<Point, nat>, ghost mid: nat,
             ghost level: nat)
    requires Searching(adj, start, targets, order0, ends0, head, visited0, prev0, dist0, mid0, level0)
    requires head < |order0| && u == order0[head] && u in adj && u !in targets && queue0 == order0[head + 1..]
    ensures Searching(adj, start, targets, order, ends, head + 1, visited, prev, dist, mid, level)
    ensures queue == queue0 + Fresh(adj[u], visited0) && order == order0 + Fresh(adj[u], visited0)
    ensures queue == order[head + 1..]
    ensures head < |order| && order[head] == u
    ensures |visited| > |visited0| || queue == queue0
  {
    var nbs := adj[u];
    ghost var added;
    visited, prev, queue, dist, added := VisitNeighbours(nbs, u, visited0, prev0, queue0, dist0, level0 + 1);
    order := order0 + added;
    ends := ends0 + [|order|];
    if head + 1 < mid0 {
      mid, level := mid0, level0;
    } else {
      mid, level := |order|, level0 + 1;
    }
    ExpandDone(adj, start, targets, u, head, order0, visited0, prev0, dist0, mid0, level0, added,
               order, visited, prev, dist);
    ExpandLayers(head, order0, dist0, mid0, level0, added, order, dist, mid, level);
    ExpandShape(adj, u, nbs, head, order0, visited0, queue0, added, order, visited, queue);
    ExpandTrace(adj, start, u, head, order0, ends0, visited0, prev0, added, order, ends, prev);
    StaysInUniverse(adj, start, u, visited0, visited);
    SubsetCard(visited, Universe(adj, start));
  }

  /** The for-loop itself: every neighbour in nbs not yet visited is marked
      visited, given u as predecessor and put at the back of the queue; the
      ghost dist records it at distance d. added lists those neighbours in
      the order they were enqueued. */
  method VisitNeighbours(nbs: seq<Point>, u: Point, visited0: set<Point>, prev0: map<Point, Point>,
                         queue0: seq<Point>, ghost dist0: map<Point, nat>, ghost d: nat)
    returns (visited: set<Point>, prev: map<Point, Point>, queue: seq<Point>,
             ghost dist: map<Point, nat>, ghost added: seq<Point>)
    ensures added == Fresh(nbs, visited0)
    ensures Batch(nbs, |nbs|, visited0, visited, added)
    ensures queue == queue0 + added
    ensures Extends(prev, prev0, added, u) && Extends(dist, dist0, added, d)
  {
    added := [];
    visited, prev, queue, dist := visited0, prev0, queue0, dist0;
    var i := 0;
    while i < |nbs|
      invariant i <= |nbs|
      invariant Visiting(nbs, u, d, visited0, prev0, queue0, dist0, i, visited, prev, queue, dist, added)
      decreases |nbs| - i
    {
      var v := nbs[i];
      if v !in visited {
        VisitTake(nbs, u, d, visited0, prev0, queue0, dist0, i, visited, prev, queue, dist, added);
        visited := visited + {v};
        prev := prev[v := u];
        queue := queue + [v];
        dist := dist[v := d];
        added := added + [v];
      } else {
        VisitSkip(nbs, u, d, visited0, prev0, queue0, dist0, i, visited, prev, queue, dist, added);
      }
      i := i + 1;
    }
    assert nbs[..i] == nbs;
  }

  /** The state of the for-loop over nbs after its first i neighbours. */
  ghost predicate Visiting(nbs: seq<Point>, u: Point, d: nat, visited0: set<Point>, prev0: map<Point, Point>,
                           queue0: seq<Point>, dist0: map<Point, nat>, i: int, visited: set<Point>,
                           prev: map<Point, Point>, queue: seq<Point>, dist: map<Point, nat>, added: seq<Point>)
  {
    && Batch(nbs, i, visited0, visited, added)
    && added == Fresh(nbs[..i], visited0)
    && queue == queue0 + added
    && Extends(prev, prev0, added, u) && Extends(dist, dist0, added, d)
  }

  /** Enqueuing the unvisited neighbour nbs[i]. */
  lemma VisitTake(nbs: seq<Point>, u: Point, d: nat, visited0: set<Point>, prev0: map<Point, Point>,
                  queue0: seq<Point>, dist0: map<Point, nat>, i: int, visited: set<Point>,
                  prev: map<Point, Point>, queue: seq<Point>, dist: map<Point, nat>, added: seq<Point>)
    requires Visiting(nbs, u, d, visited0, prev0, queue0, dist0, i, visited, prev, queue, dist, added)
    requires i < |nbs| && nbs[i] !in visited
    ensures Visiting(nbs, u, d, visited0, prev0, queue0, dist0, i + 1, visited + {nbs[i]}, prev[nbs[i] := u],
                     queue + [nbs[i]], dist[nbs[i] := d], added + [nbs[i]])
  {
    FreshNext(nbs, i, visited0, visited, added);
    BatchStep(nbs, i, visited0, visited, added);
    ExtendsStep(prev, prev0, added, u, nbs[i]);
    ExtendsStep(dist, dist0, added, d, nbs[i]);
  }

  /** Skipping the visited neighbour nbs[i]. */
  lemma VisitSkip(nbs: seq<Point>, u: Point, d: nat, visited0: set<Point>, prev0: map<Point, Point>,
                  queue0: seq<Point>, dist0: map<Point, nat>, i: int, visited: set<Point>,
                  prev: map<Point, Point>, queue: seq<Point>, dist: map<Point, nat>, added: seq<Point>)
    requires Visiting(nbs, u, d, visited0, prev0, queue0, dist0, i, visited, prev, queue, dist, added)
    requires i < |nbs| && nbs[i] in visited
    ensures Visiting(nbs, u, d, visited0, prev0, queue0, dist0, i + 1, visited, prev, queue, dist, added)
  {
    FreshNext(nbs, i, visited0, visited, added);
    BatchSkip(nbs, i, visited0, visited, added);
  }

  /** One more neighbour of the for-loop: it is appended exactly when it is
      neither visited before the loop nor already appended. */
  lemma FreshStep(nbs: seq<Point>, i: nat, seen: set<Point>)
    requires i < |nbs|
    ensures Fresh(nbs[..i + 1], seen) ==
            var f := Fresh(nbs[..i], seen);
            if nbs[i] in seen || nbs[i] in f then f else f + [nbs[i]]
  {
    assert nbs[..i + 1][..i] == nbs[..i];
  }

  /** During the for-loop, nbs[i] is appended exactly when it is not visited yet. */
  lemma FreshNext(nbs: seq<Point>, i: nat, visited0: set<Point>, visited: set<Point>, added: seq<Point>)
    requires Batch(nbs, i, visited0, visited, added) && i < |nbs|
    requires added == Fresh(nbs[..i], visited0)
    ensures Fresh(nbs[..i + 1], visited0) == if nbs[i] in visited then added else added + [nbs[i]]
  {
    FreshStep(nbs, i, visited0);
  }

  /** added lists the neighbours in nbs that were not visited before the
      for-loop; the first i neighbours are now visited, and nothing else was
      added. visited grew by one cell per entry of added, so added has no
      repeats. */
  ghost predicate Batch(nbs: seq<Point>, i: int, visited0: set<Point>, visited: set<Point>, added: seq<Point>)
  {
    && 0 <= i <= |nbs|
    && (forall k :: 0 <= k < |added| ==> added[k] in nbs && added[k] !in visited0)
    && (forall k :: 0 <= k < i ==> nbs[k] in visited)
    && (forall x :: x in visited <==> x in visited0 || x in added)
    && |visited| == |visited0| + |added|
  }

  /** m is m0 with every cell of added mapped to val. */
  ghost predicate Extends<V>(m: map<Point, V>, m0: map<Point, V>, added: seq<Point>, val: V)
  {
    && (forall x :: x in m <==> x in m0 || x in added)
    && (forall x :: x in added ==> x in m && m[x] == val)
    && (forall x :: x in m0 && x !in added ==> m[x] == m0[x])
  }

  /** Enqueuing the unvisited neighbour nbs[i] extends the batch. */
  lemma BatchStep(nbs: seq<Point>, i: int, visited0: set<Point>, visited: set<Point>, added: seq<Point>)
    requires Batch(nbs, i, visited0, visited, added) && i < |nbs| && nbs[i] !in visited
    ensures Batch(nbs, i + 1, visited0, visited + {nbs[i]}, added + [nbs[i]])
  {
    var v := nbs[i];
    assert forall x :: x in added + [v] <==> x in added || x == v;
    assert forall k :: 0 <= k < |added| ==> added[k] in visited;
  }

  /** Skipping the visited neighbour nbs[i] keeps the batch. */
  lemma BatchSkip(nbs: seq<Point>, i: int, visited0: set<Point>, visited: set<Point>, added: seq<Point>)
    requires Batch(nbs, i, visited0, visited, added) && i < |nbs| && nbs[i] in visited
    ensures Batch(nbs, i + 1, visited0, visited, added)
  {
  }

  /** Recording one more cell with the same value extends the map update. */
  lemma ExtendsStep<V>(m: map<Point, V>, m0: map<Point, V>, added: seq<Point>, val: V, v: Point)
    requires Extends(m, m0, added, val)
    ensures Extends(m[v := val], m0, added + [v], val)
  {
    assert forall x :: x in added + [v] <==> x in added || x == v;
  }

  /** After the for-loop u is expanded: the search invariant holds again
      with one more cell taken from the queue. */
  lemma ExpandDone(adj: Graph, start: Point, targets: seq<Point>, u: Point, head: nat,
                   order0: seq<Point>, visited0: set<Point>, prev0: map<Point, Point>,
                   dist0: map<Point, nat>, mid0: nat, level0: nat, added: seq<Point>,
                   order: seq<Point>, visited: set<Point>, prev: map<Point, Point>, dist: map<Point, nat>)
    requires Explored(adj, start, targets, order0, head, visited0, prev0, dist0)
    requires Layered(order0, dist0, head, mid0, level0)
    requires head < |order0| && u == order0[head] && u in adj && u !in targets
    requires Batch(adj[u], |adj[u]|, visited0, visited, added)
    requires Extends(prev, prev0, added, u) && Extends(dist, dist0, added, level0 + 1)
    requires order == order0 + added
    ensures Explored(adj, start, targets, order, head + 1, visited, prev, dist)
  {
    assert u in visited0 by { assert order0[head] in order0; }
    assert forall x :: x in added ==> x in adj[u] && x !in visited0 by {
      forall x | x in added ensures x in adj[u] && x !in visited0 {
        var k :| 0 <= k < |added| && added[k] == x;
      }
    }
    assert dist.Keys == visited;
    BatchKeepsOrder(start, order0, head, visited0, visited, added);
    BatchKeepsTree(adj, start, prev0, dist0, u, added, prev, dist);
    BatchKeepsExpanded(adj, targets, order0, head, visited0, added, visited);
    QueueFront(order0, dist0, head, mid0, level0);
    BatchKeepsExact(adj, start, targets, order0, head, visited0, dist0, added, dist);
  }

  lemma BatchKeepsOrder(start: Point, order0: seq<Point>, head: nat, visited0: set<Point>,
                        visited: set<Point>, added: seq<Point>)
    requires Enqueued(start, order0, head, visited0) && head < |order0|
    requires forall x :: x in visited <==> x in visited0 || x in added
    requires |visited| == |visited0| + |added|
    ensures Enqueued(start, order0 + added, head + 1, visited)
  {
    assert forall x :: x in order0 + added <==> x in order0 || x in added;
  }

  lemma BatchKeepsTree(adj: Graph, start: Point, prev0: map<Point, Point>, dist0: map<Point, nat>,
                       u: Point, added: seq<Point>, prev: map<Point, Point>, dist: map<Point, nat>)
    requires PredecessorTree(adj, start, prev0, dist0)
    requires u in dist0 && u in adj && u !in added
    requires forall x :: x in added ==> x in adj[u] && x !in dist0
    requires Extends(prev, prev0, added, u) && Extends(dist, dist0, added, dist0[u] + 1)
    ensures PredecessorTree(adj, start, prev, dist)
  {
  }

  lemma BatchKeepsExpanded(adj: Graph, targets: seq<Point>, order0: seq<Point>, head: nat,
                           visited0: set<Point>, added: seq<Point>, visited: set<Point>)
    requires Expanded(adj, targets, order0, head, visited0) && head < |order0|
    requires order0[head] in adj && order0[head] !in targets
    requires forall n :: n in adj[order0[head]] ==> n in visited
    requires visited0 <= visited
    ensures Expanded(adj, targets, order0 + added, head + 1, visited)
  {
    forall k | 0 <= k < head + 1 && k < |order0 + added|
      ensures (order0 + added)[k] in adj && (order0 + added)[k] !in targets
      ensures forall n :: n in adj[(order0 + added)[k]] ==> n in visited
    {
      assert (order0 + added)[k] == order0[k];
    }
  }

  lemma BatchKeepsExact(adj: Graph, start: Point, targets: seq<Point>, order0: seq<Point>, head: nat,
                        visited0: set<Point>, dist0: map<Point, nat>, added: seq<Point>, dist: map<Point, nat>)
    requires head < |order0| && order0[0] == start
    requires forall x :: x in visited0 <==> x in order0
    requires dist0.Keys == visited0
    requires forall k :: 0 <= k < head ==>
               order0[k] in adj && order0[k] !in targets && forall n :: n in adj[order0[k]] ==> n in visited0
    requires forall k :: head <= k < |order0| ==> dist0[order0[head]] <= dist0[order0[k]]
    requires DistExact(adj, start, dist0)
    requires forall x :: x in added ==> x !in visited0
    requires Extends(dist, dist0, added, dist0[order0[head]] + 1)
    ensures DistExact(adj, start, dist)
  {
    forall x | x in dist ensures NoWalkShorter(adj, start, x, dist[x]) {
      if x in added {
        FrontierCell(adj, start, targets, order0, head, visited0, dist0, x);
      }
    }
  }

  /** The cell at the head of a layered queue is a nearest one in it. */
  lemma QueueFront(order: seq<Point>, dist: map<Point, nat>, head: nat, mid: nat, level: nat)
    requires Layered(order, dist, head, mid, level) && head < |order|
    ensures dist[order[head]] == level
    ensures forall k :: head <= k < |order| ==> dist[order[head]] <= dist[order[k]]
  {
  }

  /** After the for-loop the queue is layered again: it either still starts
      with cells at distance level0, or only the cells at level0 + 1 are
      left, the new ones among them. */
  lemma ExpandLayers(head: nat, order0: seq<Point>, dist0: map<Point, nat>, mid0: nat, level0: nat,
                     added: seq<Point>, order: seq<Point>, dist: map<Point, nat>, mid: nat, level: nat)
    requires Layered(order0, dist0, head, mid0, level0) && head < |order0|
    requires Extends(dist, dist0, added, level0 + 1)
    requires forall k :: 0 <= k < |added| ==> added[k] !in dist0
    requires order == order0 + added
    requires if head + 1 < mid0 then mid == mid0 && level == level0 else mid == |order| && level == level0 + 1
    ensures Layered(order, dist, head + 1, mid, level)
  {
    forall k | head + 1 <= k < |order|
      ensures order[k] in dist
      ensures dist[order[k]] == if k < |order0| then dist0[order0[k]] else level0 + 1
    {
      if k < |order0| {
        assert order[k] == order0[k] && order0[k] in dist0;
        assert order0[k] !in added by {
          forall a | 0 <= a < |added| ensures added[a] != order0[k] {
          }
        }
      } else {
        assert order[k] == added[k - |order0|];
      }
    }
  }

  /** After the for-loop the queue holds the cells of order after the
      expanded one, order only grew at its end, and visited grew by
      neighbours of u only. */
  lemma ExpandShape(adj: Graph, u: Point, nbs: seq<Point>, head: nat, order0: seq<Point>, visited0: set<Point>,
                    queue0: seq<Point>, added: seq<Point>,
                    order: seq<Point>, visited: set<Point>, queue: seq<Point>)
    requires head < |order0| && order0[head] == u && queue0 == order0[head + 1..]
    requires u in adj && nbs == adj[u]
    requires Batch(nbs, |nbs|, visited0, visited, added)
    requires queue == queue0 + added
    requires order == order0 + added
    ensures queue == order[head + 1..]
    ensures |order| >= |order0| && order[..|order0|] == order0
    ensures head < |order| && order[head] == u
    ensures visited0 <= visited && forall x :: x in visited ==> x in visited0 || x in adj[u]
    ensures Closed(adj) && visited0 <= adj.Keys ==> visited <= adj.Keys
    ensures |visited| > |visited0| || queue == queue0
  {
    SliceConcat(order0, added, head + 1);
    assert order[..|order0|] == order0;
    assert order[head] == order0[head];
  }

  /** Before the loop only start is enqueued, at distance 0. */
  lemma SearchStart(adj: Graph, start: Point, targets: seq<Point>)
    ensures Searching(adj, start, targets, [start], [1], 0, {start}, map[], map[start := 0], 1, 0)
  {
    var order, ends, visited := [start], [1], {start};
    var prev: map<Point, Point>, dist: map<Point, nat> := map[], map[start := 0];
    assert Enqueued(start, order, 0, visited);
    assert PredecessorTree(adj, start, prev, dist) by {
      assert prev.Keys == dist.Keys - {start};
    }
    assert DistExact(adj, start, dist) by {
      assert forall v :: v in dist ==> v == start && dist[v] == 0;
    }
    assert Layered(order, dist, 0, 1, 0);
    assert Trace(adj, start, order, ends, 0) && Links(order, ends, 0, prev);
    assert visited <= Universe(adj, start);
    SubsetCard(visited, Universe(adj, start));
  }

  /** After the for-loop the trace has one more expansion: u's fresh
      neighbours, each with u as predecessor. */
  lemma ExpandTrace(adj: Graph, start: Point, u: Point, head: nat, order0: seq<Point>, ends0: seq<nat>,
                    visited0: set<Point>, prev0: map<Point, Point>, added: seq<Point>,
                    order: seq<Point>, ends: seq<nat>, prev: map<Point, Point>)
    requires Trace(adj, start, order0, ends0, head) && Links(order0, ends0, head, prev0)
    requires head < |order0| && order0[head] == u && u in adj
    requires forall x :: x in visited0 <==> x in order0
    requires added == Fresh(adj[u], visited0)
    requires Extends(prev, prev0, added, u)
    requires order == order0 + added && ends == ends0 + [|order|]
    ensures Trace(adj, start, order, ends, head + 1) && Links(order, ends, head + 1, prev)
  {
    ExpandExpansions(adj, start, u, head, order0, ends0, visited0, added, order, ends);
    ExpandLinks(adj, start, u, head, order0, ends0, visited0, prev0, added, order, ends, prev);
  }

  lemma ExpandExpansions(adj: Graph, start: Point, u: Point, head: nat, order0: seq<Point>, ends0: seq<nat>,
                         visited0: set<Point>, added: seq<Point>, order: seq<Point>, ends: seq<nat>)
    requires Trace(adj, start, order0, ends0, head)
    requires head < |order0| && order0[head] == u && u in adj
    requires forall x :: x in visited0 <==> x in order0
    requires added == Fresh(adj[u], visited0)
    requires order == order0 + added && ends == ends0 + [|order|]
    ensures Trace(adj, start, order, ends, head + 1)
  {
    assert Cells(order0) == visited0;
    assert order[..|order0|] == order0;
    assert order[|order0|..] == added;
    forall h | 0 <= h <= head ensures Expansion(adj, order, ends, h) {
      if h < head {
        assert Expansion(adj, order0, ends0, h);
        assert ends[h] == ends0[h] && ends[h + 1] == ends0[h + 1];
        assert order[ends[h]..ends[h + 1]] == order0[ends0[h]..ends0[h + 1]];
        assert order[..ends[h]] == order0[..ends0[h]];
        assert order[h] == order0[h];
      } else {
        assert ends[h] == |order0| && ends[h + 1] == |order|;
      }
    }
  }

  lemma ExpandLinks(adj: Graph, start: Point, u: Point, head: nat, order0: seq<Point>, ends0: seq<nat>,
                    visited0: set<Point>, prev0: map<Point, Point>, added: seq<Point>,
                    order: seq<Point>, ends: seq<nat>, prev: map<Point, Point>)
    requires Trace(adj, start, order0, ends0, head) && Links(order0, ends0, head, prev0)
    requires head < |order0| && order0[head] == u
    requires forall x :: x in visited0 <==> x in order0
    requires forall x :: x in added ==> x !in visited0
    requires Extends(prev, prev0, added, u)
    requires order == order0 + added && ends == ends0 + [|order|]
    ensures Links(order, ends, head + 1, prev)
  {
    forall h: int, k: int
      ensures EnqueuedAt(order, ends, head + 1, h, k) ==> order[k] in prev && prev[order[k]] == order[h]
    {
      if EnqueuedAt(order, ends, head + 1, h, k) {
        LinkAfterExpand(adj, start, u, head, order0, ends0, visited0, prev0, added, order, ends, prev, h, k);
      }
    }
  }

  /** A cell enqueued before the expansion keeps its predecessor; a cell the
      expansion enqueued has u as predecessor. */
  lemma LinkAfterExpand(adj: Graph, start: Point, u: Point, head: nat, order0: seq<Point>, ends0: seq<nat>,
                        visited0: set<Point>, prev0: map<Point, Point>, added: seq<Point>,
                        order: seq<Point>, ends: seq<nat>, prev: map<Point, Point>, h: int, k: int)
    requires Trace(adj, start, order0, ends0, head) && Links(order0, ends0, head, prev0)
    requires head < |order0| && order0[head] == u
    requires forall x :: x in visited0 <==> x in order0
    requires forall x :: x in added ==> x !in visited0
    requires Extends(prev, prev0, added, u)
    requires order == order0 + added && ends == ends0 + [|order|]
    requires EnqueuedAt(order, ends, head + 1, h, k)
    ensures order[k] in prev && prev[order[k]] == order[h]
  {
    if h < head {
      assert Expansion(adj, order0, ends0, h);
      assert ends[h] == ends0[h] && ends[h + 1] == ends0[h + 1];
      assert EnqueuedAt(order0, ends0, head, h, k);
      assert order[k] == order0[k] && order0[k] in visited0;
      assert order0[k] in prev0 && prev0[order0[k]] == order0[h];
    } else {
      assert ends[h] == |order0| && order[h] == u;
      assert order[k] == added[k - |order0|] && order[k] in added;
    }
  }

  /** Expanding a node only adds cells a search can touch. */
  lemma StaysInUniverse(adj: Graph, start: Point, u: Point, visited0: set<Point>, visited: set<Point>)
    requires visited0 <= Universe(adj, start) && u in adj
    requires forall x :: x in visited ==> x in visited0 || x in adj[u]
    ensures visited <= Universe(adj, start)
  {
    forall x | x in visited ensures x in Universe(adj, start) {
      if x !in visited0 {
        assert u in adj && x in adj[u];
      }
    }
  }

  /** A subset is no larger than its superset. */
  lemma {:induction false} SubsetCard(a: set<Point>, b: set<Point>)
    requires a <= b
    ensures |a| <= |b|
    decreases |a|
  {
    if a != {} {
      var x :| x in a;
      SubsetCard(a - {x}, b - {x});
    }
  }

  lemma SliceConcat(s: seq<Point>, t: seq<Point>, k: nat)
    requires k <= |s|
    ensures (s + t)[k..] == s[k..] + t
  {
  }

  /** At the top of the search loop, with order[head] next in the queue: a
      walk from start that ends outside the visited cells is at least one
      step longer than the distance of order[head]. */
  lemma {:induction false} UnvisitedIsFarther(adj: Graph, start: Point, targets: seq<Point>, order: seq<Point>,
                                              head: nat, visited: set<Point>, dist: map<Point, nat>,
                                              w: seq<Point>)
    requires head < |order| && order[0] == start
    requires forall x :: x in visited <==> x in order
    requires dist.Keys == visited
    requires forall k :: 0 <= k < head ==>
               order[k] in adj && order[k] !in targets && forall n :: n in adj[order[k]] ==> n in visited
    requires forall k :: head <= k < |order| ==> dist[order[head]] <= dist[order[k]]
    requires forall v :: v in visited ==> NoWalkShorter(adj, start, v, dist[v])
    requires IsWalk(adj, w) && w[0] == start && w[|w| - 1] !in visited
    ensures |w| - 1 >= dist[order[head]] + 1
    decreases |w|
  {
    assert start in visited by { assert order[0] in order; }
    var n := |w|;
    var w' := w[..n - 1];
    var x := w[n - 2];
    assert IsWalk(adj, w') && w'[0] == start && w'[|w'| - 1] == x;
    if x in visited {
      var k :| 0 <= k < |order| && order[k] == x;
      assert w[n - 1] in adj[x];
      assert k >= head;
      assert dist[order[head]] <= dist[x];
      assert |w'| - 1 >= dist[x];
    } else {
      UnvisitedIsFarther(adj, start, targets, order, head, visited, dist, w');
    }
  }

  /** UnvisitedIsFarther for every walk to an unvisited cell x. */
  lemma FrontierCell(adj: Graph, start: Point, targets: seq<Point>, order: seq<Point>, head: nat,
                     visited: set<Point>, dist: map<Point, nat>, x: Point)
    requires head < |order| && order[0] == start
    requires forall x :: x in visited <==> x in order
    requires dist.Keys == visited
    requires forall k :: 0 <= k < head ==>
               order[k] in adj && order[k] !in targets && forall n :: n in adj[order[k]] ==> n in visited
    requires forall k :: head <= k < |order| ==> dist[order[head]] <= dist[order[k]]
    requires forall v :: v in visited ==> NoWalkShorter(adj, start, v, dist[v])
    requires x !in visited
    ensures NoWalkShorter(adj, start, x, dist[order[head]] + 1)
  {
    forall w | IsWalk(adj, w) && w[0] == start && w[|w| - 1] == x
      ensures |w| - 1 >= dist[order[head]] + 1
    {
      UnvisitedIsFarther(adj, start, targets, order, head, visited, dist, w);
    }
  }

  /** When the cell at the head of the queue is a target and no earlier
      dequeued cell was one, no target is closer to start than it. */
  lemma NearestTarget(adj: Graph, start: Point, targets: seq<Point>, order: seq<Point>, head: nat,
                      visited: set<Point>, dist: map<Point, nat>, mid: nat, level: nat, u: Point)
    requires Enqueued(start, order, head, visited) && head < |order| && u == order[head]
    requires dist.Keys == visited
    requires Expanded(adj, targets, order, head, visited)
    requires Layered(order, dist, head, mid, level)
    requires DistExact(adj, start, dist)
    ensures u in dist && Nearest(adj, start, targets, dist[u])
  {
    QueueFront(order, dist, head, mid, level);
    forall t | t in targets ensures NoWalkShorter(adj, start, t, dist[order[head]]) {
      if t in visited {
        var k :| 0 <= k < |order| && order[k] == t;
        assert k >= head;
        assert dist[order[head]] <= dist[t];
      } else {
        FrontierCell(adj, start, targets, order, head, visited, dist, t);
      }
    }
  }

  // ---------------------------------------------------------------------------
  // The walk back (map_direct_save.py:73-83)

  /** list.reverse(). */
  function Reversed(s: seq<Point>): (r: seq<Point>)
    ensures |r| == |s|
    ensures forall i :: 0 <= i < |s| ==> r[i] == s[|s| - 1 - i]
  {
    if s == [] then [] else Reversed(s[1..]) + [s[0]]
  }

  /** s follows the predecessor links: each cell but the last has a
      predecessor, and it is the next cell of s. */
  ghost predicate PrevChain(prev: map<Point, Point>, s: seq<Point>)
  {
    forall i :: 0 <= i < |s| - 1 ==> s[i] in prev && prev[s[i]] == s[i + 1]
  }

  /** Cell j of path has the cell before it as its predecessor. */
  ghost predicate LinkedBack(prev: map<Point, Point>, path: seq<Point>, j: int)
  {
    0 < j < |path| && path[j] in prev && prev[path[j]] == path[j - 1]
  }

  /** Follow prev from u until start, collecting the cells, then reverse. The
      result is the walk from start to u along the predecessor links; its
      length is the distance of u. */
  method Reconstruct(adj: Graph, prev: map<Point, Point>, start: Point, u: Point, ghost dist: map<Point, nat>)
    returns (path: seq<Point>)
    requires PredecessorTree(adj, start, prev, dist)
    requires u in dist
    ensures IsWalk(adj, path) && path[0] == start && path[|path| - 1] == u
    ensures |path| == dist[u] + 1
    ensures forall j :: 0 < j < |path| ==> LinkedBack(prev, path, j)
    ensures u == start ==> path == [start]
  {
    var full := WalkBack(adj, prev, start, u, dist);
    path := Reversed(full);
    assert LinksAreEdges(adj, prev);
    ReversedChainIsWalk(adj, start, prev, full);
    if u == start {
      assert path == [start];
    }
  }

  /** The while loop of the walk back: the cells from u to start, each
      followed by its predecessor. */
  method WalkBack(adj: Graph, prev: map<Point, Point>, start: Point, u: Point, ghost dist: map<Point, nat>)
    returns (full: seq<Point>)
    requires PredecessorTree(adj, start, prev, dist)
    requires u in dist
    ensures PrevChain(prev, full) && |full| == dist[u] + 1
    ensures full[0] == u && full[|full| - 1] == start
  {
    var back: seq<Point> := [];
    var cur := u;
    while cur != start
      invariant cur in dist
      invariant |back| + dist[cur] == dist[u]
      invariant (back + [cur])[0] == u
      invariant PrevChain(prev, back + [cur])
      decreases dist[cur]
    {
      var next := if cur in prev then Some(prev[cur]) else None;  // prev.get(cur)
      if next.None? {
        // the `return []` guard: cur is a visited cell other than start, so it has a predecessor
        assert false;
      }
      ChainExtend(prev, back + [cur]);
      back := back + [cur];
      cur := next.value;
    }
    full := back + [start];
  }

  lemma ChainExtend(prev: map<Point, Point>, s: seq<Point>)
    requires PrevChain(prev, s) && |s| >= 1 && s[|s| - 1] in prev
    ensures PrevChain(prev, s + [prev[s[|s| - 1]]])
  {
  }

  /** Every predecessor link is an edge of the graph, taken forwards. */
  ghost predicate LinksAreEdges(adj: Graph, prev: map<Point, Point>)
  {
    forall v :: v in prev ==> prev[v] in adj && v in adj[prev[v]]
  }

  /** A predecessor chain ending at start, reversed, is a walk from start. */
  lemma {:induction false} ReversedChainIsWalk(adj: Graph, start: Point, prev: map<Point, Point>, s: seq<Point>)
    requires LinksAreEdges(adj, prev)
    requires PrevChain(prev, s) && |s| >= 1 && s[|s| - 1] == start
    ensures IsWalk(adj, Reversed(s)) && Reversed(s)[0] == start && Reversed(s)[|s| - 1] == s[0]
    ensures forall j :: 0 < j < |s| ==> LinkedBack(prev, Reversed(s), j)
  {
    var p := Reversed(s);
    forall j | 0 < j < |p| ensures LinkedBack(prev, p, j) {
      var k := |s| - 1 - j;
      assert p[j] == s[k] && p[j - 1] == s[k + 1];
    }
    forall i | 0 <= i < |p| - 1 ensures p[i] in adj && p[i + 1] in adj[p[i]] {
      var k := |s| - 2 - i;
      assert p[i + 1] == s[k] && p[i] == s[k + 1];
    }
  }

  /** Every graph build_graph returns is closed: its lists name only nodes,
      so the search never looks up a cell that is not a node. */
  lemma GridGraphClosed(adj: Graph)
    requires IsGridGraph(adj)
    ensures Closed(adj)
  {
    forall p, v | p in adj && v in adj[p] ensures v in adj {
      OpenAmongMembers(Candidates(p), adj.Keys);
    }
  }

  // ---------------------------------------------------------------------------
  // The breadth-first order

  /** The queue lengths recorded in a trace only grow. */
  lemma {:induction false} EndsMonotone(adj: Graph, start: Point, order: seq<Point>, ends: seq<nat>, head: nat,
                                        g: nat, h: nat)
    requires Trace(adj, start, order, ends, head) && g <= head && h <= head
    ensures g <= h ==> ends[g] <= ends[h]
    decreases h - g
  {
    if g < h {
      assert Expansion(adj, order, ends, g);
      EndsMonotone(adj, start, order, ends, head, g + 1, h);
    }
  }

  /** The first h expansions of a trace are a trace themselves. */
  lemma TracePrefix(adj: Graph, start: Point, order: seq<Point>, ends: seq<nat>, head: nat, h: nat)
    requires Trace(adj, start, order, ends, head) && h <= head
    ensures 1 <= ends[h] <= |order|
    ensures Trace(adj, start, order[..ends[h]], ends[..h + 1], h)
  {
    EndsMonotone(adj, start, order, ends, head, 0, h);
    assert h < head ==> Expansion(adj, order, ends, h);
    var o, e := order[..ends[h]], ends[..h + 1];
    forall g | 0 <= g < h ensures Expansion(adj, o, e, g) {
      assert Expansion(adj, order, ends, g);
      EndsMonotone(adj, start, order, ends, head, g + 1, h);
      assert o[e[g]..e[g + 1]] == order[ends[g]..ends[g + 1]];
      assert o[..e[g]] == order[..ends[g]];
    }
  }

  /** Breadth-first search enqueues cells in one order only: two traces of
      the same number of expansions from the same start are equal. */
  lemma {:induction false} TraceUnique(adj: Graph, start: Point, o1: seq<Point>, e1: seq<nat>,
                                       o2: seq<Point>, e2: seq<nat>, head: nat)
    requires Trace(adj, start, o1, e1, head) && Trace(adj, start, o2, e2, head)
    ensures o1 == o2 && e1 == e2
    decreases head
  {
    if head == 0 {
      assert o1 == [o1[0]] && o2 == [o2[0]];
    } else {
      var h := head - 1;
      TracePrefix(adj, start, o1, e1, head, h);
      TracePrefix(adj, start, o2, e2, head, h);
      TraceUnique(adj, start, o1[..e1[h]], e1[..head], o2[..e2[h]], e2[..head], h);
      var m := e1[h];
      assert Expansion(adj, o1, e1, h) && Expansion(adj, o2, e2, h);
      assert e2[h] == e2[..head][h] == e1[..head][h] == m;
      assert o1[h] == o1[..m][h] == o2[..m][h] == o2[h];
      assert o1[m..] == o1[e1[h]..e1[h + 1]] && o2[m..] == o2[e2[h]..e2[h + 1]];
      assert o1 == o1[..m] + o1[m..] && o2 == o2[..m] + o2[m..];
      assert e1 == e1[..head] + [|o1|] && e2 == e2[..head] + [|o2|];
    }
  }

  /** Where the search stops, as a property of its queue: it expanded the
      first `expanded` cells of order in breadth-first order, none of them a
      target, and stopped at last, either a target at the head of the queue
      or, with the queue empty, the last cell enqueued. */
  ghost predicate Stopped(adj: Graph, start: Point, targets: seq<Point>, order: seq<Point>, ends: seq<nat>,
                          expanded: nat, last: Point)
  {
    && Trace(adj, start, order, ends, expanded) && expanded <= |order|
    && (forall k :: 0 <= k < expanded ==> order[k] !in targets)
    && if expanded < |order| then order[expanded] in targets && last == order[expanded]
       else last == order[|order| - 1]
  }

  /** Where the search raises KeyError, as a property of its queue: it
      expanded the first `expanded` cells of order in breadth-first order,
      none of them a target, and the next cell taken from the queue, bad, is
      neither a target nor a node. */
  ghost predicate Raised(adj: Graph, start: Point, targets: seq<Point>, order: seq<Point>, ends: seq<nat>,
                         expanded: nat, bad: Point)
  {
    && Trace(adj, start, order, ends, expanded) && expanded < |order|
    && (forall k :: 0 <= k < expanded ==> order[k] !in targets)
    && bad == order[expanded] && bad !in adj && bad !in targets
  }

  /** The cell the search raises on is determined by the graph, the start
      and the targets. */
  lemma RaisedUnique(adj: Graph, start: Point, targets: seq<Point>,
                     o1: seq<Point>, e1: seq<nat>, x1: nat, b1: Point,
                     o2: seq<Point>, e2: seq<nat>, x2: nat, b2: Point)
    requires Raised(adj, start, targets, o1, e1, x1, b1) && Raised(adj, start, targets, o2, e2, x2, b2)
    ensures o1 == o2 && x1 == x2 && b1 == b2
  {
    if x1 <= x2 {
      RaisedFirst(adj, start, targets, o1, e1, x1, b1, o2, e2, x2, b2);
    } else {
      RaisedFirst(adj, start, targets, o2, e2, x2, b2, o1, e1, x1, b1);
    }
  }

  /** RaisedUnique when the first run expanded no more cells: a run that
      expanded more would have expanded the cell that is not a node. */
  lemma RaisedFirst(adj: Graph, start: Point, targets: seq<Point>,
                    o1: seq<Point>, e1: seq<nat>, x1: nat, b1: Point,
                    o2: seq<Point>, e2: seq<nat>, x2: nat, b2: Point)
    requires Raised(adj, start, targets, o1, e1, x1, b1) && Raised(adj, start, targets, o2, e2, x2, b2)
    requires x1 <= x2
    ensures o1 == o2 && x1 == x2 && b1 == b2
  {
    TraceAgrees(adj, start, o1, e1, x1, o2, e2, x2);
  }

  /** A search that stops normally does not raise: the outcome of
      bfs_shortest_path, a path or KeyError, is determined by the graph, the
      start and the targets. */
  lemma StoppedNotRaised(adj: Graph, start: Point, targets: seq<Point>,
                         o1: seq<Point>, e1: seq<nat>, x1: nat, l1: Point,
                         o2: seq<Point>, e2: seq<nat>, x2: nat, b2: Point)
    requires Stopped(adj, start, targets, o1, e1, x1, l1)
    ensures !Raised(adj, start, targets, o2, e2, x2, b2)
  {
    if Raised(adj, start, targets, o2, e2, x2, b2) {
      if x1 <= x2 {
        TraceAgrees(adj, start, o1, e1, x1, o2, e2, x2);
      } else {
        TraceAgrees(adj, start, o2, e2, x2, o1, e1, x1);
      }
    }
  }

  /** Two traces from the same start agree on what the shorter one
      enqueued, and the longer one expanded the cell the shorter one would
      take next. */
  lemma TraceAgrees(adj: Graph, start: Point, o1: seq<Point>, e1: seq<nat>, x1: nat,
                    o2: seq<Point>, e2: seq<nat>, x2: nat)
    requires Trace(adj, start, o1, e1, x1) && Trace(adj, start, o2, e2, x2) && x1 <= x2
    ensures |o1| == e2[x1] <= |o2| && forall i :: 0 <= i < |o1| ==> o1[i] == o2[i]
    ensures x1 < x2 ==> x1 < |o1| && o2[x1] in adj
    ensures x1 == x2 ==> o1 == o2
  {
    TracePrefix(adj, start, o2, e2, x2, x1);
    TraceUnique(adj, start, o1, e1, o2[..e2[x1]], e2[..x1 + 1], x1);
    if x1 < x2 {
      assert Expansion(adj, o2, e2, x1);
    }
  }

  /** The cell the search stops at is determined by the graph, the start
      and the targets. */
  lemma StoppedUnique(adj: Graph, start: Point, targets: seq<Point>,
                      o1: seq<Point>, e1: seq<nat>, x1: nat, l1: Point,
                      o2: seq<Point>, e2: seq<nat>, x2: nat, l2: Point)
    requires Stopped(adj, start, targets, o1, e1, x1, l1) && Stopped(adj, start, targets, o2, e2, x2, l2)
    ensures o1 == o2 && x1 == x2 && l1 == l2
  {
    if x1 <= x2 {
      StoppedFirst(adj, start, targets, o1, e1, x1, l1, o2, e2, x2, l2);
    } else {
      StoppedFirst(adj, start, targets, o2, e2, x2, l2, o1, e1, x1, l1);
    }
  }

  /** StoppedUnique when the first run expanded no more cells. A run that
      expanded more would have expanded the target the first one stopped
      at, or a cell that the first one never enqueued. */
  lemma StoppedFirst(adj: Graph, start: Point, targets: seq<Point>,
                     o1: seq<Point>, e1: seq<nat>, x1: nat, l1: Point,
                     o2: seq<Point>, e2: seq<nat>, x2: nat, l2: Point)
    requires Stopped(adj, start, targets, o1, e1, x1, l1) && Stopped(adj, start, targets, o2, e2, x2, l2)
    requires x1 <= x2
    ensures o1 == o2 && x1 == x2 && l1 == l2
  {
    TracePrefix(adj, start, o2, e2, x2, x1);
    TraceUnique(adj, start, o1, e1, o2[..e2[x1]], e2[..x1 + 1], x1);
    assert |o1| == e2[x1];
    StoppedBefore(adj, start, targets, o2, e2, x2, l2, x1);
    assert x1 == x2;
    assert o1 == o2;
  }

  /** A cell expanded before the search stopped was taken from a queue
      that held it, and is not a target. */
  lemma StoppedBefore(adj: Graph, start: Point, targets: seq<Point>, order: seq<Point>, ends: seq<nat>,
                      expanded: nat, last: Point, h: nat)
    requires Stopped(adj, start, targets, order, ends, expanded, last) && h <= expanded
    ensures h < expanded ==> h < ends[h] && order[h] !in targets
  {
    if h < expanded {
      assert Expansion(adj, order, ends, h);
    }
  }

  /** Every enqueued cell after start was enqueued by some expansion. */
  lemma SliceOf(adj: Graph, start: Point, order: seq<Point>, ends: seq<nat>, head: nat, k: nat)
    returns (h: nat)
    requires Trace(adj, start, order, ends, head) && 1 <= k < |order|
    ensures EnqueuedAt(order, ends, head, h, k)
  {
    h := 0;
    while k >= ends[h + 1]
      invariant h < head && ends[h] <= k && Expansion(adj, order, ends, h)
      decreases head - h
    {
      h := h + 1;
    }
  }

  /** Each step of a predecessor chain goes from a cell to one it enqueued. */
  lemma PathEnqueued(adj: Graph, start: Point, order: seq<Point>, ends: seq<nat>, head: nat,
                     prev: map<Point, Point>, dist: map<Point, nat>, visited: set<Point>, path: seq<Point>)
    requires Trace(adj, start, order, ends, head) && Links(order, ends, head, prev)
    requires PredecessorTree(adj, start, prev, dist) && dist.Keys == visited
    requires forall x :: x in visited <==> x in order
    requires forall j :: 0 < j < |path| ==> LinkedBack(prev, path, j)
    ensures forall i :: 0 < i < |path| ==> EnqueuedBy(order, ends, head, path[i - 1], path[i])
  {
    forall i | 0 < i < |path| ensures EnqueuedBy(order, ends, head, path[i - 1], path[i]) {
      var v, a := path[i], i - 1;
      assert LinkedBack(prev, path, i);
      assert v in prev && prev[v] == path[a];
      var k :| 0 <= k < |order| && order[k] == v;
      var h := SliceOf(adj, start, order, ends, head, k);
      assert EnqueuedAt(order, ends, head, h, k) && order[h] == path[a];
    }
  }

  /** Along the queue the distance from start never decreases: a cell is
      enqueued one step beyond the cell that enqueued it, and cells are
      expanded in the order they were enqueued. */
  lemma {:induction false} DistMonotone(adj: Graph, start: Point, order: seq<Point>, ends: seq<nat>, head: nat,
                                        prev: map<Point, Point>, dist: map<Point, nat>, visited: set<Point>,
                                        i: nat, j: nat)
    requires Trace(adj, start, order, ends, head) && Links(order, ends, head, prev)
    requires PredecessorTree(adj, start, prev, dist) && dist.Keys == visited
    requires forall x :: x in visited <==> x in order
    requires i <= j < |order|
    ensures dist[order[i]] <= dist[order[j]]
    decreases j
  {
    assert order[i] in order && order[j] in order;
    if 0 < i < j {
      var hi := SliceOf(adj, start, order, ends, head, i);
      var hj := SliceOf(adj, start, order, ends, head, j);
      EndsMonotone(adj, start, order, ends, head, hj + 1, hi);
      assert Expansion(adj, order, ends, hj);
      assert hi <= hj < j;
      DistMonotone(adj, start, order, ends, head, prev, dist, visited, hi, hj);
      ParentStep(order, ends, head, prev, dist, hi, i);
      ParentStep(order, ends, head, prev, dist, hj, j);
    }
  }

  /** A cell is one step farther from start than the cell that enqueued it. */
  lemma ParentStep(order: seq<Point>, ends: seq<nat>, head: nat, prev: map<Point, Point>,
                   dist: map<Point, nat>, h: int, k: int)
    requires Links(order, ends, head, prev) && EnqueuedAt(order, ends, head, h, k)
    requires forall v :: v in prev ==> prev[v] in dist && v in dist && dist[v] == dist[prev[v]] + 1
    ensures order[k] in dist && order[h] in dist && dist[order[k]] == dist[order[h]] + 1
  {
  }

  // ---------------------------------------------------------------------------
  // bfs_shortest_path

  /** v can be reached from start in at most n steps. */
  ghost predicate ReachesWithin(adj: Graph, start: Point, v: Point, n: nat)
  {
    exists w {:trigger IsWalk(adj, w)} :: IsWalk(adj, w) && w[0] == start && w[|w| - 1] == v && |w| - 1 <= n
  }

  /** bfs_shortest_path as written. The adj lookup raises KeyError on a cell
      that is not a node (never for a graph from build_graph whose start is a
      node, see GridGraphClosed). Otherwise the result is the predecessor
      chain from start to the cell the search stopped at: a shortest walk to
      the first target dequeued, which is a nearest one, when a target can be
      reached, and a shortest walk to the last cell enqueued, a farthest
      reachable one, when none can (never the empty list). */
  method BfsShortestPath(adj: Graph, start: Point, targets: seq<Point>)
    returns (r: Result<seq<Point>, Point>, ghost order: seq<Point>, ghost ends: seq<nat>, ghost expanded: nat)
    ensures start in targets ==> r == Ok([start])
    ensures r.Err? ==> r.error !in adj && r.error !in targets
    // KeyError on the first cell taken from the queue that is not a node,
    // when no target was taken before it
    ensures r.Err? ==> Raised(adj, start, targets, order, ends, expanded, r.error)
    ensures start !in adj && start !in targets ==> r == Err(start)
    ensures Closed(adj) && start in adj ==> r.Ok?
    ensures r.Ok? ==> IsWalk(adj, r.value) && r.value[0] == start
                      && NoWalkShorter(adj, start, r.value[|r.value| - 1], |r.value| - 1)
    // the path ends where breadth-first search stops, and each step goes to
    // a cell the previous one enqueued
    ensures r.Ok? ==> Stopped(adj, start, targets, order, ends, expanded, r.value[|r.value| - 1])
    ensures r.Ok? ==> forall i :: 0 < i < |r.value| ==> EnqueuedBy(order, ends, expanded, r.value[i - 1], r.value[i])
    ensures r.Ok? ==> (r.value[|r.value| - 1] in targets <==> ReachesTarget(adj, start, targets))
    ensures r.Ok? && ReachesTarget(adj, start, targets) ==>
              forall t :: t in targets ==> NoWalkShorter(adj, start, t, |r.value| - 1)
    ensures r.Ok? && !ReachesTarget(adj, start, targets) ==>
              && r.value[|r.value| - 1] == order[|order| - 1]
              && (forall i, j :: 0 <= i < j < |order| ==> order[i] != order[j])
              && (forall x :: x in order <==> ReachesCell(adj, start, x))
              && (forall x :: ReachesCell(adj, start, x) ==> ReachesWithin(adj, start, x, |r.value| - 1))
    ensures r.Ok? && start in adj && adj[start] == [] ==> r.value == [start]
  {
    var missing, found, u, prev, visited;
    ghost var dist;
    missing, found, u, prev, visited, order, ends, expanded, dist := Search(adj, start, targets);
    if missing.Some? {
      return Err(missing.value), order, ends, expanded;
    }
    var path := Reconstruct(adj, prev, start, u, dist);
    r := Ok(path);
    PathEnqueued(adj, start, order, ends, expanded, prev, dist, visited, path);
    if found {
      assert ReachesTarget(adj, start, targets) by {
        assert IsWalk(adj, path) && path[0] == start && path[|path| - 1] in targets;
      }
    } else {
      Exhausted(adj, start, targets, order, ends, visited, prev, dist);
    }
    if start in adj && adj[start] == [] {
      WalkStaysInside(adj, {start}, path);
      assert IsWalk(adj, [start]);
    }
  }

  /** After a search that emptied its queue: no target is reachable, every
      reachable cell was enqueued exactly once, and none is farther from
      start than the last one enqueued. */
  lemma Exhausted(adj: Graph, start: Point, targets: seq<Point>, order: seq<Point>, ends: seq<nat>,
                  visited: set<Point>, prev: map<Point, Point>, dist: map<Point, nat>)
    requires Explored(adj, start, targets, order, |order|, visited, prev, dist)
    requires Trace(adj, start, order, ends, |order|) && Links(order, ends, |order|, prev)
    ensures !ReachesTarget(adj, start, targets)
    ensures forall i, j :: 0 <= i < j < |order| ==> order[i] != order[j]
    ensures forall x :: x in order <==> ReachesCell(adj, start, x)
    ensures forall x :: ReachesCell(adj, start, x) ==> ReachesWithin(adj, start, x, dist[order[|order| - 1]])
  {
    AllExpanded(adj, start, targets, order, visited, prev, dist);
    NoTargetOutside(adj, start, targets, visited, dist);
    DistinctCount(order, visited);
    forall x
      ensures x in order <==> ReachesCell(adj, start, x)
      ensures ReachesCell(adj, start, x) ==> ReachesWithin(adj, start, x, dist[order[|order| - 1]])
    {
      if x in order {
        var k :| 0 <= k < |order| && order[k] == x;
        TreeReaches(adj, start, prev, dist, x);
        DistMonotone(adj, start, order, ends, |order|, prev, dist, visited, k, |order| - 1);
      }
      if ReachesCell(adj, start, x) {
        var w :| IsWalk(adj, w) && w[0] == start && w[|w| - 1] == x;
        WalkStaysInside(adj, visited, w);
      }
    }
  }

  /** A walk that starts in a set closed under adjacency stays in it. */
  lemma {:induction false} WalkStaysInside(adj: Graph, inside: set<Point>, w: seq<Point>)
    requires forall v :: v in inside ==> v in adj && forall n :: n in adj[v] ==> n in inside
    requires IsWalk(adj, w) && w[0] in inside
    ensures w[|w| - 1] in inside
    decreases |w|
  {
    if |w| > 1 {
      var w' := w[..|w| - 1];
      assert IsWalk(adj, w');
      WalkStaysInside(adj, inside, w');
      assert w[|w| - 1] in adj[w[|w| - 2]];
    }
  }

  /** A sequence whose cells form a set as large as the sequence is long
      repeats no cell. */
  lemma {:induction false} DistinctCount(s: seq<Point>, cells: set<Point>)
    requires forall x :: x in cells <==> x in s
    ensures |cells| <= |s|
    ensures |cells| == |s| ==> forall i, j :: 0 <= i < j < |s| ==> s[i] != s[j]
    decreases |s|
  {
    if s == [] {
      assert cells == {};
    } else {
      var s', last := s[..|s| - 1], s[|s| - 1];
      var cells' := set x | x in s';
      assert s == s' + [last];
      DistinctCount(s', cells');
      assert cells == cells' + {last};
      if last !in s' {
        assert |cells| == |cells'| + 1;
        forall i, j | 0 <= i < j < |s| && |cells| == |s| ensures s[i] != s[j] {
          if j < |s| - 1 {
            assert s[i] == s'[i] && s[j] == s'[j];
          } else {
            assert s[i] == s'[i] && s[i] in s';
          }
        }
      } else {
        assert cells == cells';
      }
    }
  }

  /** After an exhausted search no target can be reached. */
  lemma NoTargetOutside(adj: Graph, start: Point, targets: seq<Point>, visited: set<Point>, dist: map<Point, nat>)
    requires start in visited
    requires forall v :: v in visited ==> v in adj && forall n :: n in adj[v] ==> n in visited
    requires forall v :: v in visited ==> v !in targets
    ensures !ReachesTarget(adj, start, targets)
  {
    forall w | IsWalk(adj, w) && w[0] == start ensures w[|w| - 1] !in targets {
      WalkStaysInside(adj, visited, w);
    }
  }

  /** Every cell of a predecessor tree is reachable from start, in as many
      steps as its recorded distance. */
  lemma {:induction false} TreeReaches(adj: Graph, start: Point, prev: map<Point, Point>, dist: map<Point, nat>, v: Point)
    requires PredecessorTree(adj, start, prev, dist)
    requires v in dist
    ensures ReachesCell(adj, start, v) && ReachesWithin(adj, start, v, dist[v])
    decreases dist[v]
  {
    if v == start {
      assert IsWalk(adj, [start]);
    } else {
      var p := prev[v];
      TreeReaches(adj, start, prev, dist, p);
      var w :| IsWalk(adj, w) && w[0] == start && w[|w| - 1] == p && |w| - 1 <= dist[p];
      var w2 := w + [v];
      assert IsWalk(adj, w2) && w2[0] == start && w2[|w2| - 1] == v;
    }
  }

  // ---------------------------------------------------------------------------
  // The docstring's promise: an empty list when there is no path

  /** bfs_shortest_path as its docstring describes it: the empty list when no
      target can be reached, otherwise a shortest walk from start to the
      nearest target. */
  method ShortestPathOrEmpty(adj: Graph, start: Point, targets: seq<Point>)
    returns (r: Result<seq<Point>, Point>, ghost order: seq<Point>, ghost ends: seq<nat>, ghost expanded: nat)
    ensures start in targets ==> r == Ok([start])
    ensures r.Err? ==> r.error !in adj && r.error !in targets
    ensures r.Err? ==> Raised(adj, start, targets, order, ends, expanded, r.error)
    ensures Closed(adj) && start in adj ==> r.Ok?
    ensures r.Ok? ==> (r.value == [] <==> !ReachesTarget(adj, start, targets))
    ensures r.Ok? && r.value != [] ==>
              && IsWalk(adj, r.value) && r.value[0] == start && r.value[|r.value| - 1] in targets
              && forall t :: t in targets ==> NoWalkShorter(adj, start, t, |r.value| - 1)
  {
    var missing, found, u, prev, visited;
    ghost var dist;
    missing, found, u, prev, visited, order, ends, expanded, dist := Search(adj, start, targets);
    if missing.Some? {
      return Err(missing.value), order, ends, expanded;
    }
    if !found {
      AllExpanded(adj, start, targets, order, visited, prev, dist);
      NoTargetOutside(adj, start, targets, visited, dist);
      return Ok([]), order, ends, expanded;
    }
    var path := Reconstruct(adj, prev, start, u, dist);
    assert ReachesTarget(adj, start, targets) by {
      assert IsWalk(adj, path) && path[0] == start && path[|path| - 1] in targets;
    }
    r := Ok(path);
  }

  /** A start cell with no neighbours and an unreachable target: the code
      returns [start], not the empty list its docstring promises. */
  method IsolatedStartExample() returns (r: Result<seq<Point>, Point>)
    ensures r == Ok([(0, 0)])
    ensures !ReachesTarget(map[(0, 0) := []], (0, 0), [(5, 5)])
  {
    var adj: Graph := map[(0, 0) := []];
    ghost var order, ends, expanded;
    r, order, ends, expanded := BfsShortestPath(adj, (0, 0), [(5, 5)]);
    forall w | IsWalk(adj, w) && w[0] == (0, 0) ensures w[|w| - 1] !in [(5, 5)] {
      WalkStaysInside(adj, {(0, 0)}, w);
    }
  }

  /** A start whose list names a target and a cell that is not a node: the
      target is taken from the queue first, so the code returns the path to
      it and never looks up the missing cell. */
  method ListedNonNodeExample() returns (r: Result<seq<Point>, Point>)
    ensures r == Ok([(0, 0), (1, 0)])
  {
    var adj: Graph := map[(0, 0) := [(1, 0), (2, 0)]];
    ghost var order, ends, expanded;
    r, order, ends, expanded := BfsShortestPath(adj, (0, 0), [(1, 0)]);
    ListedNonNodeNotRaised(order, ends, expanded, if r.Err? then r.error else (0, 0));
    assert IsWalk(adj, [(0, 0), (1, 0)]);
    assert r.value == [r.value[0], r.value[1]];
  }

  /** On the graph of ListedNonNodeExample no trace raises KeyError: the
      first expansion enqueues the target before the missing cell. */
  lemma ListedNonNodeNotRaised(o: seq<Point>, e: seq<nat>, x: nat, b: Point)
    ensures !Raised(map[(0, 0) := [(1, 0), (2, 0)]], (0, 0), [(1, 0)], o, e, x, b)
  {
    var adj: Graph := map[(0, 0) := [(1, 0), (2, 0)]];
    if x > 0 && Trace(adj, (0, 0), o, e, x) {
      assert Expansion(adj, o, e, 0);
      assert Cells(o[..1]) == {(0, 0)};
      var nbs := adj[(0, 0)];
      assert nbs[..1] == [(1, 0)] && nbs[..1][..0] == [];
      assert Fresh(nbs[..1], {(0, 0)}) == [(1, 0)];
      assert o[1..e[1]] == [(1, 0), (2, 0)];
    }
  }
}
