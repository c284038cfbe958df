/**
  Cost maps shared by `dijkstra`, `ucs`, `astar` and `dls`: the `dist`,
  `g_score` and `best_depth` dictionaries. A cell absent from the map stands
  for the infinite cost those dictionaries start with.
 */
module Costs {
  import opened Grid
  import opened Backtrack

  /** Finite costs; a missing cell has infinite cost. */
  type CostMap = map<Cell, nat>

  /** Every neighbour of `v` has a cost at most one more than `v`'s. */
  ghost predicate Relaxed(adj: Adjacency, cost: CostMap, v: Cell) {
    v in cost && forall n :: Step(adj, v, n) ==> n in cost && cost[n] <= cost[v] + 1
  }

  /** No cost went up and no cell lost its cost. */
  ghost predicate Lowered(cost: CostMap, cost': CostMap) {
    forall v :: v in cost ==> v in cost' && cost'[v] <= cost[v]
  }

  /** Lowering one cost, or giving a first cost to a cell without one, raises no cost. */
  lemma LoweredUpdate(cost: CostMap, v: Cell, k: nat)
    requires v !in cost || k < cost[v]
    ensures Lowered(cost, cost[v := k])
  {
  }

  /**
    The (cell, cost) pairs below `bound` a cell could still be lowered to.
    Every strict improvement to a cost below `bound` removes one of them, so
    this set measures how much improving is left.
   */
  ghost function Pending(adj: Adjacency, cost: CostMap, bound: nat): (r: set<(Cell, nat)>) {
    set v, k: nat | v in adj.Keys && k < bound && (v !in cost || k < cost[v]) :: (v, k)
  }

  /** How much improving is left: the number of `Pending` pairs. */
  ghost function Potential(adj: Adjacency, cost: CostMap, bound: nat): (r: nat) {
    |Pending(adj, cost, bound)|
  }

  /** Lowering the cost of a grid cell to a value below `bound` removes a pending pair and adds none. */
  lemma Lowering(adj: Adjacency, cost: CostMap, bound: nat, v: Cell, k: nat)
    requires v in adj && k < bound && (v !in cost || k < cost[v])
    ensures Potential(adj, cost[v := k], bound) < Potential(adj, cost, bound)
  {
    var before, after := Pending(adj, cost, bound), Pending(adj, cost[v := k], bound);
    assert (v, k) in before;
    assert (v, k) !in after;
    forall pair | pair in after
      ensures pair in before
    {
      var (w, j) := pair;
      if w == v {
        assert j < k;
      }
    }
    assert before == after + (before - after);
    assert |before - after| >= 1 by {
      assert (v, k) in before - after;
    }
  }

  /**
    If the start has cost 0 and every cell cheaper than `K` is relaxed, then
    along any walk from the start the `i`-th cell, for `i <= K`, has a cost of
    at most `i`.
   */
  lemma {:induction false} WalkBound(adj: Adjacency, cost: CostMap, s: Cell, K: int, q: seq<Cell>)
    requires s in cost && cost[s] == 0
    requires forall v :: v in cost && cost[v] < K ==> Relaxed(adj, cost, v)
    requires IsWalk(adj, q) && q[0] == s
    ensures forall i :: 0 <= i < |q| && i <= K ==> q[i] in cost && cost[q[i]] <= i
    decreases |q|
  {
    if |q| > 1 {
      var r := q[..|q| - 1];
      assert IsWalk(adj, r) by {
        forall i | 0 <= i < |r| - 1
          ensures Step(adj, r[i], r[i + 1])
        {
          assert r[i] == q[i] && r[i + 1] == q[i + 1];
        }
      }
      WalkBound(adj, cost, s, K, r);
      var n := |q| - 1;
      if n <= K {
        assert q[n - 1] == r[n - 1];
        assert Relaxed(adj, cost, q[n - 1]);
        assert Step(adj, q[n - 1], q[n]);
      }
      forall i | 0 <= i < n && i <= K
        ensures q[i] in cost && cost[q[i]] <= i
      {
        assert q[i] == r[i];
      }
    }
  }

  /**
    With the start at cost 0, every cell cheaper than `K` relaxed, and a
    predecessor map of neighbour steps that strictly lowers the cost, a cell
    `t` of cost at most `K` has its cost equal to the fewest steps from the
    start, and following the predecessors back from `t` takes exactly that
    many steps.
   */
  lemma Shortest(adj: Adjacency, s: Cell, t: Cell, cost: CostMap, cf: Predecessors, K: int)
    requires cf.Keys == cost.Keys - {s} && RankedBy(cf, cost)
    requires forall v :: v in cf ==> Step(adj, cf[v], v)
    requires s in cost && cost[s] == 0 && t in cost && cost[t] <= K
    requires forall v :: v in cost && cost[v] < K ==> Relaxed(adj, cost, v)
    ensures Terminates(cf, t)
    ensures var p := Trace(cf, t); IsDistance(adj, s, t, |p| - 1) && cost[t] == |p| - 1
  {
    TreeRoute(adj, s, t, cost.Keys, cf, cost);
    TraceRanked(cf, cost, t);
    var p := Trace(cf, t);
    var q :| IsWalk(adj, q) && q[0] == s && q[|q| - 1] == t && |q| <= |p|;
    WalkBound(adj, cost, s, K, q);
    assert cost[t] <= |q| - 1;
    if Within(adj, s, t, |p| - 2) {
      var q' :| IsWalk(adj, q') && q'[0] == s && q'[|q'| - 1] == t && |q'| <= |p| - 1;
      WalkBound(adj, cost, s, K, q');
      assert false;
    }
  }

  /**
    When every cell with a cost is relaxed, the cells with a cost are exactly
    those reachable from the start, and each cost is the fewest steps to it.
   */
  lemma AllRelaxed(adj: Adjacency, s: Cell, cost: CostMap, cf: Predecessors)
    requires cf.Keys == cost.Keys - {s} && RankedBy(cf, cost)
    requires forall v :: v in cf ==> Step(adj, cf[v], v)
    requires s in cost && cost[s] == 0
    requires forall v :: v in cost ==> Relaxed(adj, cost, v)
    ensures forall v :: v in cost <==> Reachable(adj, s, v)
    ensures forall v :: v in cost ==> IsDistance(adj, s, v, cost[v])
  {
    assert StepClosed(adj, cost.Keys) by {
      forall a, b | a in cost && Step(adj, a, b)
        ensures b in cost
      {
        assert Relaxed(adj, cost, a);
      }
    }
    forall v
      ensures v in cost <==> Reachable(adj, s, v)
    {
      if v in cost {
        TreeRoute(adj, s, v, cost.Keys, cf, cost);
      }
      if Reachable(adj, s, v) {
        ClosedContainsReachable(adj, cost.Keys, s, v);
      }
    }
    forall v | v in cost
      ensures IsDistance(adj, s, v, cost[v])
    {
      Shortest(adj, s, v, cost, cf, cost[v]);
    }
  }

  /**
    A cost map and predecessor map as a search keeps them: costs only for
    grid cells, the start at 0, every cost below the number of costed cells,
    predecessors ranked by cost and made of neighbour steps.
   */
  ghost predicate Tree(adj: Adjacency, s: Cell, dist: CostMap, cameFrom: Predecessors) {
    && dist.Keys <= adj.Keys && s in dist && dist[s] == 0
    && (forall v :: v in dist ==> dist[v] < |dist|)
    && cameFrom.Keys == dist.Keys - {s} && RankedBy(cameFrom, dist)
    && (forall v :: v in cameFrom ==> Step(adj, cameFrom[v], v))
  }

  /** The colours only opened or closed cells, and the start kept its colour. */
  ghost predicate Painting(colors: Colors, s: Cell, painted: Colors) {
    s in colors && Explored(colors, painted) && painted[s] == colors[s]
  }

  /** Opening a cell other than the start keeps the painting. */
  lemma Opened(colors: Colors, s: Cell, painted: Colors, n: Cell)
    requires Painting(colors, s, painted) && n in colors && n != s
    ensures Painting(colors, s, painted[n := Open])
  {
  }

  /** Closing a cell other than the start keeps the painting. */
  lemma Closing(colors: Colors, s: Cell, painted: Colors, c: Cell)
    requires Painting(colors, s, painted) && c in colors && c != s
    ensures Painting(colors, s, painted[c := Closed])
  {
  }

  /**
    Lowering `n` to one more than `current`, with `current` as its
    predecessor, keeps the tree; the new cost stays below the number of grid
    cells.
   */
  lemma ImproveTree(adj: Adjacency, s: Cell, current: Cell, n: Cell, dist: CostMap, cameFrom: Predecessors)
    requires Tree(adj, s, dist, cameFrom)
    requires current in dist && Step(adj, current, n) && n in adj
    requires n !in dist || dist[current] + 1 < dist[n]
    ensures n != s && dist[current] + 1 < |adj|
    ensures Tree(adj, s, dist[n := dist[current] + 1], cameFrom[n := current])
  {
    assert n != s;
    ImproveBound(adj, current, n, dist);
    ImproveRanked(adj, s, current, n, dist, cameFrom);
  }

  /** The new cost, one more than `current`'s, stays below the number of costed cells and of grid cells. */
  lemma ImproveBound(adj: Adjacency, current: Cell, n: Cell, dist: CostMap)
    requires dist.Keys <= adj.Keys && (forall v :: v in dist ==> dist[v] < |dist|)
    requires current in dist && n in adj && (n !in dist || dist[current] + 1 < dist[n])
    ensures dist[current] + 1 < |adj|
    ensures var dist' := dist[n := dist[current] + 1]; forall v :: v in dist' ==> dist'[v] < |dist'|
  {
    var dist' := dist[n := dist[current] + 1];
    SubsetCardinality(dist'.Keys, adj.Keys);
    if n !in dist {
      assert dist'.Keys == dist.Keys + {n};
      assert |dist'| == |dist| + 1;
    } else {
      assert dist'.Keys == dist.Keys;
    }
  }

  /** Giving `n` the predecessor `current`, one cost lower, keeps predecessors ranked and made of steps. */
  lemma ImproveRanked(adj: Adjacency, s: Cell, current: Cell, n: Cell, dist: CostMap, cameFrom: Predecessors)
    requires cameFrom.Keys == dist.Keys - {s} && RankedBy(cameFrom, dist)
    requires forall v :: v in cameFrom ==> Step(adj, cameFrom[v], v)
    requires current in dist && Step(adj, current, n) && n != s
    requires n !in dist || dist[current] + 1 < dist[n]
    ensures var dist', cameFrom' := dist[n := dist[current] + 1], cameFrom[n := current];
      && cameFrom'.Keys == dist'.Keys - {s} && RankedBy(cameFrom', dist')
      && (forall v :: v in cameFrom' ==> Step(adj, cameFrom'[v], v))
  {
  }

  /** Costs below `bound` stay below it when costs are lowered; the `i`-th neighbour has just been brought below it. */
  lemma StillBelow(before: CostMap, after: CostMap, neighbors: seq<Cell>, i: nat, bound: nat)
    requires i < |neighbors| && Lowered(before, after)
    requires forall j :: 0 <= j < i ==> neighbors[j] in before && before[neighbors[j]] <= bound
    requires neighbors[i] in after && after[neighbors[i]] <= bound
    ensures forall j :: 0 <= j <= i ==> neighbors[j] in after && after[neighbors[j]] <= bound
  {
  }

  /** Having lowered every listed neighbour to at most one step more, `current` is relaxed. */
  lemma NeighborsRelaxed(adj: Adjacency, dist: CostMap, current: Cell, neighbors: seq<Cell>)
    requires current in adj && neighbors == adj[current] && current in dist
    requires forall j :: 0 <= j < |neighbors| ==> neighbors[j] in dist && dist[neighbors[j]] <= dist[current] + 1
    ensures Relaxed(adj, dist, current)
  {
    forall n | Step(adj, current, n)
      ensures n in dist && dist[n] <= dist[current] + 1
    {
      var j :| 0 <= j < |neighbors| && neighbors[j] == n;
    }
  }
}
