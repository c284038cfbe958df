/**
  `dijkstra` and `ucs`: a priority queue of (cost, cell) entries, a cost map
  lowered by one-step relaxations, stale entries left in the queue. `dijkstra`
  drains the queue before looking at the end cell; `ucs` stops as soon as it
  takes the end cell out.
 */
module UniformCost {
  import opened Wrappers
  import opened Grid
  import opened Backtrack
  import opened MinQueue
  import opened Costs

  /** Every queued entry is for a costed cell, keyed no lower than its cost (queue entries carry no tie-break). */
  ghost predicate Queued(dist: CostMap, queue: seq<Entry>) {
    forall i :: 0 <= i < |queue| ==> queue[i].cell in dist && dist[queue[i].cell] <= queue[i].key && queue[i].tie == 0
  }

  /** `v` is still queued at its current cost, or its neighbours are already no more than one step dearer. */
  ghost predicate Settled(adj: Adjacency, dist: CostMap, queue: seq<Entry>, v: Cell) {
    v in dist && (Entry(dist[v], 0, v) in queue || Relaxed(adj, dist, v))
  }

  /**
    The queue invariant: every costed cell outside `skip` is settled, and every
    costed cell in `watch` is queued at its current cost.
   */
  ghost predicate Frontier(adj: Adjacency, dist: CostMap, queue: seq<Entry>, skip: set<Cell>, watch: set<Cell>) {
    && Queued(dist, queue)
    && (forall v :: v in dist && v !in skip ==> Settled(adj, dist, queue, v))
    && (forall v :: v in dist && v in watch ==> Entry(dist[v], 0, v) in queue)
  }

  /**
    `dijkstra`. Besides the verdict, the colours, the predecessor map and the
    redraw count, returns the final cost map, which holds the fewest steps to
    every cell reachable from the start and nothing else.
   */
  method Dijkstra(adj: Adjacency, colors: Colors, start: Option<Cell>, end: Option<Cell>)
    returns (found: bool, painted: Colors, cameFrom: Predecessors, dist: CostMap, draws: nat)
    requires WellFormed(adj, colors)
    requires start.Some? ==> start.value in adj
    requires end.Some? ==> end.value in adj
    ensures start.None? || end.None? ==>
      !found && painted == colors && cameFrom == map[] && dist == map[] && draws == 0
    ensures start.Some? && end.Some? ==>
      var s, t := start.value, end.value;
      && (forall v :: v in dist <==> Reachable(adj, s, v))
      && (forall v :: v in dist ==> IsDistance(adj, s, v, dist[v]))
      && (found <==> Reachable(adj, s, t))
      && (found ==>
            && Terminates(cameFrom, t)
            && var p := Trace(cameFrom, t);
            && ChainTo(adj, p, s) && |p| - 1 <= draws
            && IsDistance(adj, s, t, |p| - 1)
            && RouteShown(colors, painted, p, s, t))
      && (!found ==> Explored(colors, painted) && painted[s] == colors[s])
  {
    if start.None? || end.None? {
      return false, colors, map[], map[], 0;
    }
    found, painted, cameFrom, dist, draws := Settle(adj, colors, start.value, end.value);
  }

  /** `dijkstra` once both the start and the end cell are set. */
  method Settle(adj: Adjacency, colors: Colors, s: Cell, t: Cell)
    returns (found: bool, painted: Colors, cameFrom: Predecessors, dist: CostMap, draws: nat)
    requires WellFormed(adj, colors) && s in adj && t in adj
    ensures forall v :: v in dist <==> Reachable(adj, s, v)
    ensures forall v :: v in dist ==> IsDistance(adj, s, v, dist[v])
    ensures found <==> Reachable(adj, s, t)
    ensures found ==>
      && Terminates(cameFrom, t)
      && var p := Trace(cameFrom, t);
      && ChainTo(adj, p, s) && |p| - 1 <= draws
      && IsDistance(adj, s, t, |p| - 1)
      && RouteShown(colors, painted, p, s, t)
    ensures !found ==> Explored(colors, painted) && painted[s] == colors[s]
  {
    dist, cameFrom, painted, draws := Drain(adj, colors, s);
    AllRelaxed(adj, s, dist, cameFrom);
    found := t in dist;
    if found {
      var steps;
      painted, steps := Backtrace(adj, colors, s, t, dist, cameFrom, painted);
      draws := draws + steps;
    }
  }

  /**
    The main loop of `dijkstra`: take out a least entry and expand its cell
    until the queue is empty. Afterwards every cell with a distance is
    relaxed.
   */
  method Drain(adj: Adjacency, colors: Colors, s: Cell)
    returns (dist: CostMap, cameFrom: Predecessors, painted: Colors, draws: nat)
    requires WellFormed(adj, colors) && s in adj
    ensures Tree(adj, s, dist, cameFrom) && Painting(colors, s, painted)
    ensures forall v :: v in dist ==> Relaxed(adj, dist, v)
  {
    dist := map[s := 0];
    cameFrom := map[];
    var queue := [Entry(0, 0, s)];
    painted := colors;
    draws := 0;
    while |queue| > 0
      invariant Tree(adj, s, dist, cameFrom) && Painting(colors, s, painted)
      invariant Frontier(adj, dist, queue, {}, {})
      decreases Potential(adj, dist, |adj|), |queue|
    {
      var e, rest;
      ghost var i;
      e, rest, i := ExtractMin(queue);
      Pop(adj, dist, queue, i, {});
      dist, cameFrom, rest, painted := Visit(adj, colors, s, e.cell, dist, cameFrom, rest, painted, {});
      queue := rest;
      draws := draws + 1;
    }
    Drained(adj, dist, queue);
  }

  /**
    `dijkstra` after the queue is drained, with the end at a finite distance:
    the predecessors lead back to the start along a shortest route, which the
    reconstruction shows.
   */
  method Backtrace(adj: Adjacency, colors: Colors, s: Cell, t: Cell, dist: CostMap, cameFrom: Predecessors,
                   painted: Colors)
    returns (painted': Colors, steps: nat)
    requires WellFormed(adj, colors) && Tree(adj, s, dist, cameFrom) && Painting(colors, s, painted)
    requires forall v :: v in dist ==> Relaxed(adj, dist, v)
    requires t in dist
    ensures Terminates(cameFrom, t)
    ensures var p := Trace(cameFrom, t);
      && ChainTo(adj, p, s) && steps == |p| - 1
      && IsDistance(adj, s, t, |p| - 1)
      && RouteShown(colors, painted', p, s, t)
  {
    TreeRoute(adj, s, t, dist.Keys, cameFrom, dist);
    Shortest(adj, s, t, dist, cameFrom, dist[t]);
    painted', steps := Reconstruct(cameFrom, s, t, colors, painted);
  }

  /** `ucs`: the same search, returning as soon as the end cell is taken out of the queue. */
  method Ucs(adj: Adjacency, colors: Colors, start: Option<Cell>, end: Option<Cell>)
    returns (found: bool, painted: Colors, cameFrom: Predecessors, draws: nat)
    requires WellFormed(adj, colors)
    requires start.Some? ==> start.value in adj
    requires end.Some? ==> end.value in adj
    ensures start.None? || end.None? ==>
      !found && painted == colors && cameFrom == map[] && draws == 0
    ensures start.Some? && end.Some? ==>
      var s, t := start.value, end.value;
      && (found <==> Reachable(adj, s, t))
      && (found ==>
            && Terminates(cameFrom, t)
            && var p := Trace(cameFrom, t);
            && ChainTo(adj, p, s) && |p| - 1 <= draws
            && IsDistance(adj, s, t, |p| - 1)
            && RouteShown(colors, painted, p, s, t))
      && (!found ==> Explored(colors, painted) && painted[s] == colors[s])
  {
    if start.None? || end.None? {
      return false, colors, map[], 0;
    }
    found, painted, cameFrom, draws := Search(adj, colors, start.value, end.value);
  }

  /** `ucs` once both the start and the end cell are set. */
  method Search(adj: Adjacency, colors: Colors, s: Cell, t: Cell)
    returns (found: bool, painted: Colors, cameFrom: Predecessors, draws: nat)
    requires WellFormed(adj, colors) && s in adj && t in adj
    ensures found <==> Reachable(adj, s, t)
    ensures found ==>
      && Terminates(cameFrom, t)
      && var p := Trace(cameFrom, t);
      && ChainTo(adj, p, s) && |p| - 1 <= draws
      && IsDistance(adj, s, t, |p| - 1)
      && RouteShown(colors, painted, p, s, t)
    ensures !found ==> Explored(colors, painted) && painted[s] == colors[s]
  {
    var dist := map[s := 0];
    cameFrom := map[];
    var queue := [Entry(0, 0, s)];
    painted := colors;
    draws := 0;
    while |queue| > 0
      invariant Tree(adj, s, dist, cameFrom) && Painting(colors, s, painted)
      invariant Frontier(adj, dist, queue, {}, {t})
      decreases Potential(adj, dist, |adj|), |queue|
    {
      var e, rest;
      ghost var i;
      e, rest, i := ExtractMin(queue);
      if e.cell == t {
        var steps;
        painted, steps := Arrive(adj, colors, s, t, dist, cameFrom, queue, painted, i);
        draws := draws + steps;
        return true, painted, cameFrom, draws;
      }
      Pop(adj, dist, queue, i, {t});
      dist, cameFrom, rest, painted := Visit(adj, colors, s, e.cell, dist, cameFrom, rest, painted, {t});
      queue := rest;
      draws := draws + 1;
    }
    Drained(adj, dist, queue);
    AllRelaxed(adj, s, dist, cameFrom);
    found := false;
  }

  /**
    `ucs` taking the end out of the queue: the predecessors lead back to the
    start along a shortest route, which the reconstruction shows.
   */
  method Arrive(adj: Adjacency, colors: Colors, s: Cell, t: Cell, dist: CostMap, cameFrom: Predecessors,
                queue: seq<Entry>, painted: Colors, ghost i: nat)
    returns (painted': Colors, steps: nat)
    requires WellFormed(adj, colors) && Tree(adj, s, dist, cameFrom) && Painting(colors, s, painted)
    requires Frontier(adj, dist, queue, {}, {t}) && IsMin(queue, i) && queue[i].cell == t
    ensures Reachable(adj, s, t) && Terminates(cameFrom, t)
    ensures var p := Trace(cameFrom, t);
      && ChainTo(adj, p, s) && steps == |p| - 1
      && IsDistance(adj, s, t, |p| - 1)
      && RouteShown(colors, painted', p, s, t)
  {
    Reached(adj, dist, queue, i, {t});
    TreeRoute(adj, s, t, dist.Keys, cameFrom, dist);
    Shortest(adj, s, t, dist, cameFrom, queue[i].key);
    painted', steps := Reconstruct(cameFrom, s, t, colors, painted);
  }

  /** Both searches give the same verdict on the same grid. */
  method SameVerdict(adj: Adjacency, colors: Colors, start: Option<Cell>, end: Option<Cell>)
    returns (byDijkstra: bool, byUcs: bool)
    requires WellFormed(adj, colors)
    requires start.Some? ==> start.value in adj
    requires end.Some? ==> end.value in adj
    ensures byDijkstra == byUcs
  {
    var painted, cameFrom, dist, draws;
    byDijkstra, painted, cameFrom, dist, draws := Dijkstra(adj, colors, start, end);
    byUcs, painted, cameFrom, draws := Ucs(adj, colors, start, end);
  }

  /** Taking out entry `i`: its cell is the one about to be expanded; the rest stay settled. */
  lemma Pop(adj: Adjacency, dist: CostMap, queue: seq<Entry>, i: nat, watch: set<Cell>)
    requires Frontier(adj, dist, queue, {}, watch) && i < |queue| && queue[i].cell !in watch
    ensures Frontier(adj, dist, Remove(queue, i), {queue[i].cell}, watch)
  {
    var rest := Remove(queue, i);
    forall v | v in dist && (v != queue[i].cell || v in watch) && Entry(dist[v], 0, v) in queue
      ensures Entry(dist[v], 0, v) in rest
    {
      RemoveKeeps(queue, i, Entry(dist[v], 0, v));
    }
  }

  /**
    When a least entry is taken out, every cell cheaper than its key is
    relaxed: otherwise that cell would still be queued below it.
   */
  lemma Reached(adj: Adjacency, dist: CostMap, queue: seq<Entry>, i: int, watch: set<Cell>)
    requires Frontier(adj, dist, queue, {}, watch) && IsMin(queue, i)
    ensures dist[queue[i].cell] <= queue[i].key
    ensures forall v :: v in dist && dist[v] < queue[i].key ==> Relaxed(adj, dist, v)
  {
    forall v | v in dist && dist[v] < queue[i].key
      ensures Relaxed(adj, dist, v)
    {
      assert Settled(adj, dist, queue, v);
      assert Entry(dist[v], 0, v) !in queue;
    }
  }

  /** With the queue empty, every costed cell is relaxed and no watched cell has a cost. */
  lemma Drained(adj: Adjacency, dist: CostMap, queue: seq<Entry>)
    requires |queue| == 0 && Frontier(adj, dist, queue, {}, {})
    ensures forall v :: v in dist ==> Relaxed(adj, dist, v)
  {
    forall v | v in dist
      ensures Relaxed(adj, dist, v)
    {
      assert Settled(adj, dist, queue, v);
    }
  }

  /**
    One pass of the main loop after the entry for `current` was taken out:
    relax every neighbour, then close `current` unless it is the start.
   */
  method Visit(adj: Adjacency, colors: Colors, s: Cell, current: Cell,
               dist: CostMap, cameFrom: Predecessors, queue: seq<Entry>, painted: Colors, ghost watch: set<Cell>)
    returns (dist': CostMap, cameFrom': Predecessors, queue': seq<Entry>, painted': Colors)
    requires WellFormed(adj, colors) && Tree(adj, s, dist, cameFrom) && Painting(colors, s, painted)
    requires Frontier(adj, dist, queue, {current}, watch)
    requires current in dist && current !in watch
    ensures Tree(adj, s, dist', cameFrom') && Painting(colors, s, painted')
    ensures Frontier(adj, dist', queue', {}, watch)
    ensures Lowered(dist, dist')
    ensures Potential(adj, dist', |adj|) < Potential(adj, dist, |adj|) || (dist' == dist && queue' == queue)
  {
    dist', cameFrom', queue', painted' := Expand(adj, colors, s, current, dist, cameFrom, queue, painted, watch);
    if current != s {
      Closing(colors, s, painted', current);
      painted' := painted'[current := Closed];
    }
  }

  /** The inner `for neighbor in current.neighbors` loop; afterwards `current` is relaxed. */
  method Expand(adj: Adjacency, colors: Colors, ghost s: Cell, current: Cell,
                dist: CostMap, cameFrom: Predecessors, queue: seq<Entry>, painted: Colors, ghost watch: set<Cell>)
    returns (dist': CostMap, cameFrom': Predecessors, queue': seq<Entry>, painted': Colors)
    requires WellFormed(adj, colors) && Tree(adj, s, dist, cameFrom) && Painting(colors, s, painted)
    requires Frontier(adj, dist, queue, {current}, watch)
    requires current in dist && current !in watch
    ensures Tree(adj, s, dist', cameFrom') && Painting(colors, s, painted')
    ensures Frontier(adj, dist', queue', {}, watch)
    ensures Relaxed(adj, dist', current)
    ensures Lowered(dist, dist')
    ensures Potential(adj, dist', |adj|) < Potential(adj, dist, |adj|) || (dist' == dist && queue' == queue)
  {
    dist', cameFrom', queue', painted' := dist, cameFrom, queue, painted;
    var neighbors := adj[current];
    var i := 0;
    while i < |neighbors|
      invariant i <= |neighbors|
      invariant Tree(adj, s, dist', cameFrom') && Painting(colors, s, painted')
      invariant Frontier(adj, dist', queue', {current}, watch)
      invariant Lowered(dist, dist') && dist'[current] == dist[current]
      invariant Potential(adj, dist', |adj|) < Potential(adj, dist, |adj|) || (dist' == dist && queue' == queue)
      invariant forall j :: 0 <= j < i ==> neighbors[j] in dist' && dist'[neighbors[j]] <= dist[current] + 1
    {
      ghost var before := dist';
      dist', cameFrom', queue', painted' :=
        Relax(adj, colors, s, current, neighbors[i], dist', cameFrom', queue', painted', watch);
      StillBelow(before, dist', neighbors, i, dist[current] + 1);
      i := i + 1;
    }
    NeighborsRelaxed(adj, dist', current, neighbors);
  }

  /**
    One relaxation: if going through `current` is cheaper than the
    neighbour's cost, lower it, record `current` as its predecessor, open it
    and queue it at the new cost.
   */
  method Relax(adj: Adjacency, colors: Colors, ghost s: Cell, current: Cell, neighbor: Cell,
               dist: CostMap, cameFrom: Predecessors, queue: seq<Entry>, painted: Colors, ghost watch: set<Cell>)
    returns (dist': CostMap, cameFrom': Predecessors, queue': seq<Entry>, painted': Colors)
    requires WellFormed(adj, colors) && Tree(adj, s, dist, cameFrom) && Painting(colors, s, painted)
    requires Frontier(adj, dist, queue, {current}, watch)
    requires current in dist && current !in watch && Step(adj, current, neighbor)
    ensures Tree(adj, s, dist', cameFrom') && Painting(colors, s, painted')
    ensures Frontier(adj, dist', queue', {current}, watch)
    ensures Lowered(dist, dist') && dist'[current] == dist[current]
    ensures neighbor in dist' && dist'[neighbor] <= dist[current] + 1
    ensures Potential(adj, dist', |adj|) < Potential(adj, dist, |adj|) || (dist' == dist && queue' == queue)
  {
    var temp := dist[current] + 1;
    if neighbor !in dist || temp < dist[neighbor] {
      assert neighbor in adj;
      ImproveTree(adj, s, current, neighbor, dist, cameFrom);
      Improve(adj, current, neighbor, dist, queue, watch);
      Opened(colors, s, painted, neighbor);
      dist' := dist[neighbor := dist[current] + 1];
      cameFrom' := cameFrom[neighbor := current];
      painted' := painted[neighbor := Open];
      queue' := queue + [Entry(dist[current] + 1, 0, neighbor)];
    } else {
      dist', cameFrom', queue', painted' := dist, cameFrom, queue, painted;
    }
  }

  /** A strict improvement keeps the queue invariant and leaves less improving to do. */
  lemma Improve(adj: Adjacency, current: Cell, n: Cell, dist: CostMap, queue: seq<Entry>, watch: set<Cell>)
    requires Frontier(adj, dist, queue, {current}, watch)
    requires current in dist && n in adj && dist[current] + 1 < |adj|
    requires n !in dist || dist[current] + 1 < dist[n]
    ensures n != current
    ensures var dist' := dist[n := dist[current] + 1];
      && Frontier(adj, dist', queue + [Entry(dist[current] + 1, 0, n)], {current}, watch)
      && Lowered(dist, dist')
      && Potential(adj, dist', |adj|) < Potential(adj, dist, |adj|)
  {
    ImproveFrontier(adj, dist, queue, current, n, dist[current] + 1, watch);
    Lowering(adj, dist, |adj|, n, dist[current] + 1);
    LoweredUpdate(dist, n, dist[current] + 1);
  }

  /** Lowering `n` and queueing it at its new cost keeps every other cell settled and every watched cell queued. */
  lemma ImproveFrontier(adj: Adjacency, dist: CostMap, queue: seq<Entry>, current: Cell, n: Cell, k: nat,
                        watch: set<Cell>)
    requires Frontier(adj, dist, queue, {current}, watch) && current in dist && n != current
    requires n !in dist || k < dist[n]
    ensures Frontier(adj, dist[n := k], queue + [Entry(k, 0, n)], {current}, watch)
  {
    var dist', queue' := dist[n := k], queue + [Entry(k, 0, n)];
    assert Queued(dist', queue') by {
      forall i | 0 <= i < |queue'|
        ensures queue'[i].cell in dist' && dist'[queue'[i].cell] <= queue'[i].key && queue'[i].tie == 0
      {
        if i < |queue| {
          assert queue'[i] == queue[i];
        }
      }
    }
    assert Entry(k, 0, n) in queue' by {
      assert queue'[|queue|] == Entry(k, 0, n);
    }
    forall v | v in dist' && v != current && v != n
      ensures Settled(adj, dist', queue', v)
    {
      assert Settled(adj, dist, queue, v);
    }
  }
}
