/**
  `dls` and `ids`: a LIFO stack of (cell, depth) frames, a best-depth map that
  only admits a cell again at a strictly smaller depth, no expansion past the
  depth limit; `ids` runs `dls` with limits 1 to 99 on the same grid.
 */
module DepthLimited {
  import opened Wrappers
  import opened Grid
  import opened Backtrack
  import opened Costs

  /** A stack entry: a cell and the depth it was pushed at. */
  datatype Frame = Frame(cell: Cell, depth: nat)

  /**
    The deepest frame a run can hold: the limit itself, or 0 for a negative
    limit, which lets only the start frame onto the stack.
   */
  function Reach(limit: int): (r: nat) {
    if limit < 0 then 0 else limit
  }

  /**
    The best-depth map and predecessor map as `dls` keeps them: depths for
    grid cells only, the start at depth 0, no depth past `lim`, predecessors
    at a strictly smaller depth and made of neighbour steps.
   */
  ghost predicate DepthTree(adj: Adjacency, s: Cell, best: CostMap, cameFrom: Predecessors, lim: nat) {
    && best.Keys <= adj.Keys && s in best && best[s] == 0
    && (forall v :: v in best ==> best[v] <= lim)
    && cameFrom.Keys == best.Keys - {s} && RankedBy(cameFrom, best)
    && (forall v :: v in cameFrom ==> Step(adj, cameFrom[v], v))
  }

  /** Every frame is for a cell with a best depth, at that depth or a staler, larger one, and within reach. */
  ghost predicate Framed(best: CostMap, stack: seq<Frame>, lim: nat) {
    forall i :: 0 <= i < |stack| ==>
      stack[i].cell in best && best[stack[i].cell] <= stack[i].depth <= lim
  }

  /** `v` still has a frame at its best depth, or, when that depth is below `lim`, its neighbours are at most one deeper. */
  ghost predicate Settled(adj: Adjacency, best: CostMap, stack: seq<Frame>, lim: nat, v: Cell) {
    v in best && (Frame(v, best[v]) in stack || (best[v] < lim ==> Relaxed(adj, best, v)))
  }

  /** The stack invariant: frames are sound, cells outside `skip` are settled, and a reached end is on the stack. */
  ghost predicate Frontier(adj: Adjacency, best: CostMap, stack: seq<Frame>, lim: nat, t: Cell, skip: set<Cell>) {
    && Framed(best, stack, lim)
    && (forall v :: v in best && v !in skip ==> Settled(adj, best, stack, lim, v))
    && (t in best ==> Frame(t, best[t]) in stack)
  }

  /**
    `dls`. Returns whether the end cell can be reached in at most `limit`
    steps (at most 0 for a negative limit) and, if so, shows a path of at most
    that many steps.
   */
  method Dls(adj: Adjacency, colors: Colors, start: Option<Cell>, end: Option<Cell>, limit: int)
    returns (found: bool, painted: Colors, cameFrom: Predecessors, draws: nat)
    requires WellFormed(adj, colors)
    requires start.Some? ==> start.value in adj
    requires end.Some? ==> end.value in adj
    ensures start.None? || end.None? ==>
      !found && painted == colors && cameFrom == map[] && draws == 0
    ensures start.Some? && end.Some? ==>
      var s, t := start.value, end.value;
      && (found <==> Within(adj, s, t, Reach(limit)))
      && (found ==>
            && Terminates(cameFrom, t)
            && var p := Trace(cameFrom, t);
            && ChainTo(adj, p, s) && NoDuplicates(p) && |p| - 1 <= draws
            && |p| - 1 <= Reach(limit)
            && RouteShown(colors, painted, p, s, t))
      && (!found ==> Explored(colors, painted) && painted[s] == colors[s])
  {
    if start.None? || end.None? {
      return false, colors, map[], 0;
    }
    found, painted, cameFrom, draws := Search(adj, colors, start.value, end.value, limit);
  }

  /** `dls` once both the start and the end cell are set. */
  method Search(adj: Adjacency, colors: Colors, s: Cell, t: Cell, limit: int)
    returns (found: bool, painted: Colors, cameFrom: Predecessors, draws: nat)
    requires WellFormed(adj, colors) && s in adj && t in adj
    ensures found <==> Within(adj, s, t, Reach(limit))
    ensures found ==>
      && Terminates(cameFrom, t)
      && var p := Trace(cameFrom, t);
      && ChainTo(adj, p, s) && NoDuplicates(p) && |p| - 1 <= draws
      && |p| - 1 <= Reach(limit)
      && RouteShown(colors, painted, p, s, t)
    ensures !found ==> Explored(colors, painted) && painted[s] == colors[s]
  {
    var lim := Reach(limit);
    var stack := [Frame(s, 0)];
    var best := map[s := 0];
    cameFrom := map[];
    painted := colors;
    draws := 0;
    while |stack| > 0
      invariant DepthTree(adj, s, best, cameFrom, lim) && Painting(colors, s, painted)
      invariant Frontier(adj, best, stack, lim, t, {})
      decreases Potential(adj, best, lim + 1), |stack|
    {
      var top := stack[|stack| - 1];
      var rest := stack[..|stack| - 1];
      if top.cell == t {
        var steps;
        painted, steps := Arrive(adj, colors, s, t, best, cameFrom, lim, stack, painted);
        draws := draws + steps;
        return true, painted, cameFrom, draws;
      }
      Pop(adj, best, stack, lim, t);
      if top.depth == limit {
        Stop(adj, best, rest, lim, t, top);
        if top.cell != s {
          Closing(colors, s, painted, top.cell);
          painted := painted[top.cell := Closed];
        }
        stack := rest;
      } else {
        best, cameFrom, stack, painted := Visit(adj, colors, s, t, top, limit, lim, best, cameFrom, rest, painted);
      }
      draws := draws + 1;
    }
    Unreached(adj, s, t, best, lim);
    found := false;
  }

  /**
    `dls` taking the end off the stack: the predecessors lead back to the
    start in at most `lim` steps, and the reconstruction shows that route.
   */
  method Arrive(adj: Adjacency, colors: Colors, s: Cell, t: Cell, best: CostMap, cameFrom: Predecessors, lim: nat,
                stack: seq<Frame>, painted: Colors)
    returns (painted': Colors, steps: nat)
    requires WellFormed(adj, colors) && DepthTree(adj, s, best, cameFrom, lim) && Painting(colors, s, painted)
    requires Framed(best, stack, lim)
    requires |stack| > 0 && stack[|stack| - 1].cell == t
    ensures Within(adj, s, t, lim) && Terminates(cameFrom, t)
    ensures var p := Trace(cameFrom, t);
      && ChainTo(adj, p, s) && NoDuplicates(p) && steps == |p| - 1
      && |p| - 1 <= lim
      && RouteShown(colors, painted', p, s, t)
  {
    Arrived(adj, s, t, best, cameFrom, lim, stack);
    painted', steps := Reconstruct(cameFrom, s, t, colors, painted);
  }

  /** Taking the end off the stack: the predecessors lead back to the start in at most `lim` steps. */
  lemma Arrived(adj: Adjacency, s: Cell, t: Cell, best: CostMap, cameFrom: Predecessors, lim: nat, stack: seq<Frame>)
    requires DepthTree(adj, s, best, cameFrom, lim) && Framed(best, stack, lim)
    requires |stack| > 0 && stack[|stack| - 1].cell == t
    ensures Terminates(cameFrom, t)
    ensures var p := Trace(cameFrom, t);
      && ChainTo(adj, p, s) && NoDuplicates(p) && Last(p) == s
      && (forall i :: 0 <= i < |p| ==> p[i] in best)
      && |p| - 1 <= lim && Within(adj, s, t, lim)
  {
    assert t in best;
    TreeRoute(adj, s, t, best.Keys, cameFrom, best);
    TraceRanked(cameFrom, best, t);
    WithinMonotone(adj, s, t, |Trace(cameFrom, t)| - 1, lim);
  }

  /** Popping the top frame, for a cell other than the end: that cell is the one skipped, every other stays settled. */
  lemma Pop(adj: Adjacency, best: CostMap, stack: seq<Frame>, lim: nat, t: Cell)
    requires Frontier(adj, best, stack, lim, t, {}) && |stack| > 0 && stack[|stack| - 1].cell != t
    ensures var top, rest := stack[|stack| - 1], stack[..|stack| - 1];
      && top.cell in best && best[top.cell] <= top.depth <= lim
      && Frontier(adj, best, rest, lim, t, {top.cell})
      && (Settled(adj, best, rest, lim, top.cell) || best[top.cell] == top.depth)
  {
    var top, rest := stack[|stack| - 1], stack[..|stack| - 1];
    assert stack == rest + [top];
    forall f | f in stack && f != top
      ensures f in rest
    {
    }
  }

  /** A frame at the depth limit is not expanded; its cell is settled all the same. */
  lemma Stop(adj: Adjacency, best: CostMap, rest: seq<Frame>, lim: nat, t: Cell, top: Frame)
    requires Frontier(adj, best, rest, lim, t, {top.cell}) && top.cell in best
    requires Settled(adj, best, rest, lim, top.cell) || best[top.cell] == top.depth
    requires top.depth == lim
    ensures Frontier(adj, best, rest, lim, t, {})
  {
    assert Settled(adj, best, rest, lim, top.cell);
  }

  /**
    With the stack empty, every cell shallower than `lim` is relaxed and the end
    has no depth, so no walk of at most `lim` steps reaches it.
   */
  lemma Unreached(adj: Adjacency, s: Cell, t: Cell, best: CostMap, lim: nat)
    requires s in best && best[s] == 0
    requires Frontier(adj, best, [], lim, t, {})
    ensures !Within(adj, s, t, lim)
  {
    forall v | v in best && best[v] < lim
      ensures Relaxed(adj, best, v)
    {
      assert Settled(adj, best, [], lim, v);
    }
    if Within(adj, s, t, lim) {
      var q :| IsWalk(adj, q) && q[0] == s && q[|q| - 1] == t && |q| <= lim + 1;
      WalkBound(adj, best, s, lim, q);
      assert false;
    }
  }

  /**
    One pass of the main loop below the depth limit: push every neighbour that
    gets a smaller best depth, then close the cell unless it is the start.
   */
  method Visit(adj: Adjacency, colors: Colors, s: Cell, ghost t: Cell, top: Frame, limit: int, ghost lim: nat,
               best: CostMap, cameFrom: Predecessors, stack: seq<Frame>, painted: Colors)
    returns (best': CostMap, cameFrom': Predecessors, stack': seq<Frame>, painted': Colors)
    requires WellFormed(adj, colors) && lim == Reach(limit) && top.depth != limit
    requires DepthTree(adj, s, best, cameFrom, lim) && Painting(colors, s, painted)
    requires Frontier(adj, best, stack, lim, t, {top.cell})
    requires top.cell in best && best[top.cell] <= top.depth <= lim
    requires Settled(adj, best, stack, lim, top.cell) || best[top.cell] == top.depth
    ensures DepthTree(adj, s, best', cameFrom', lim) && Painting(colors, s, painted')
    ensures Frontier(adj, best', stack', lim, t, {})
    ensures Potential(adj, best', lim + 1) < Potential(adj, best, lim + 1) || (best' == best && stack' == stack)
  {
    best', cameFrom', stack', painted' := Expand(adj, colors, s, t, top, limit, lim, best, cameFrom, stack, painted);
    if top.cell != s {
      Closing(colors, s, painted', top.cell);
      painted' := painted'[top.cell := Closed];
    }
  }

  /** The inner `for neighbor in current.neighbors` loop; afterwards the popped cell is settled. */
  method Expand(adj: Adjacency, colors: Colors, ghost s: Cell, ghost t: Cell, top: Frame, limit: int, ghost lim: nat,
                best: CostMap, cameFrom: Predecessors, stack: seq<Frame>, painted: Colors)
    returns (best': CostMap, cameFrom': Predecessors, stack': seq<Frame>, painted': Colors)
    requires WellFormed(adj, colors) && lim == Reach(limit) && top.depth != limit
    requires DepthTree(adj, s, best, cameFrom, lim) && Painting(colors, s, painted)
    requires Frontier(adj, best, stack, lim, t, {top.cell})
    requires top.cell in best && best[top.cell] <= top.depth <= lim
    requires Settled(adj, best, stack, lim, top.cell) || best[top.cell] == top.depth
    ensures DepthTree(adj, s, best', cameFrom', lim) && Painting(colors, s, painted')
    ensures Frontier(adj, best', stack', lim, t, {})
    ensures Potential(adj, best', lim + 1) < Potential(adj, best, lim + 1) || (best' == best && stack' == stack)
  {
    var current, depth := top.cell, top.depth;
    best', cameFrom', stack', painted' := best, cameFrom, stack, painted;
    var neighbors := adj[current];
    var i := 0;
    while i < |neighbors|
      invariant i <= |neighbors|
      invariant DepthTree(adj, s, best', cameFrom', lim) && Painting(colors, s, painted')
      invariant Frontier(adj, best', stack', lim, t, {current})
      invariant Lowered(best, best') && best'[current] == best[current] && stack <= stack'
      invariant Potential(adj, best', lim + 1) < Potential(adj, best, lim + 1) || (best' == best && stack' == stack)
      invariant depth + 1 <= limit ==>
        forall j :: 0 <= j < i ==> neighbors[j] in best' && best'[neighbors[j]] <= depth + 1
    {
      ghost var before := best';
      best', cameFrom', stack', painted' :=
        Relax(adj, colors, s, t, current, depth, limit, lim, neighbors[i], best', cameFrom', stack', painted');
      if depth + 1 <= limit {
        StillBelow(before, best', neighbors, i, depth + 1);
      }
      i := i + 1;
    }
    Expanded(adj, best, current, depth, limit, lim, neighbors, best', stack, stack', t);
  }

  /**
    After the neighbours of a popped frame are handled, its cell is settled:
    either a fresher frame for it is still on the stack, or the frame was at its
    best depth and every neighbour is now at most one deeper.
   */
  lemma Expanded(adj: Adjacency, best: CostMap, current: Cell, depth: nat, limit: int, lim: nat,
                 neighbors: seq<Cell>, best': CostMap, stack: seq<Frame>, stack': seq<Frame>, t: Cell)
    requires lim == Reach(limit) && depth != limit && current in adj && neighbors == adj[current]
    requires Frontier(adj, best', stack', lim, t, {current}) && stack <= stack' && Lowered(best, best')
    requires current in best && current in best' && best'[current] == best[current] && best[current] <= depth <= lim
    requires Settled(adj, best, stack, lim, current) || best[current] == depth
    requires depth + 1 <= limit ==>
      forall j :: 0 <= j < |neighbors| ==> neighbors[j] in best' && best'[neighbors[j]] <= depth + 1
    ensures Frontier(adj, best', stack', lim, t, {})
  {
    if Frame(current, best[current]) in stack {
      var k :| 0 <= k < |stack| && stack[k] == Frame(current, best[current]);
      assert stack'[k] == stack[k];
    } else if best[current] < lim && best[current] != depth {
      assert Relaxed(adj, best, current);
    } else if best[current] < lim {
      NeighborsRelaxed(adj, best', current, neighbors);
    }
    assert Settled(adj, best', stack', lim, current);
  }

  /**
    One neighbour: if it is within the limit and deeper than one step past the
    popped frame, give it that depth, record the predecessor, push it and
    open it.
   */
  method Relax(adj: Adjacency, colors: Colors, ghost s: Cell, ghost t: Cell, current: Cell, depth: nat,
               limit: int, ghost lim: nat, neighbor: Cell,
               best: CostMap, cameFrom: Predecessors, stack: seq<Frame>, painted: Colors)
    returns (best': CostMap, cameFrom': Predecessors, stack': seq<Frame>, painted': Colors)
    requires WellFormed(adj, colors) && lim == Reach(limit)
    requires DepthTree(adj, s, best, cameFrom, lim) && Painting(colors, s, painted)
    requires Frontier(adj, best, stack, lim, t, {current})
    requires current in best && best[current] <= depth && Step(adj, current, neighbor)
    ensures DepthTree(adj, s, best', cameFrom', lim) && Painting(colors, s, painted')
    ensures Frontier(adj, best', stack', lim, t, {current})
    ensures Lowered(best, best') && best'[current] == best[current] && stack <= stack'
    ensures depth + 1 <= limit ==> neighbor in best' && best'[neighbor] <= depth + 1
    ensures Potential(adj, best', lim + 1) < Potential(adj, best, lim + 1) || (best' == best && stack' == stack)
  {
    if depth + 1 <= limit && (neighbor !in best || depth + 1 < best[neighbor]) {
      Improve(adj, colors, s, t, current, depth, lim, neighbor, best, cameFrom, stack);
      Opened(colors, s, painted, neighbor);
      best' := best[neighbor := depth + 1];
      cameFrom' := cameFrom[neighbor := current];
      stack' := stack + [Frame(neighbor, depth + 1)];
      painted' := painted[neighbor := Open];
    } else {
      best', cameFrom', stack', painted' := best, cameFrom, stack, painted;
    }
  }

  /** A strict improvement within the limit keeps the tree and the stack invariant, and leaves less improving to do. */
  lemma Improve(adj: Adjacency, colors: Colors, s: Cell, t: Cell, current: Cell, depth: nat, lim: nat, n: Cell,
                best: CostMap, cameFrom: Predecessors, stack: seq<Frame>)
    requires WellFormed(adj, colors) && DepthTree(adj, s, best, cameFrom, lim)
    requires Frontier(adj, best, stack, lim, t, {current})
    requires current in best && best[current] <= depth && depth + 1 <= lim && Step(adj, current, n)
    requires n !in best || depth + 1 < best[n]
    ensures n != s && n != current && n in adj
    ensures var best' := best[n := depth + 1];
      && DepthTree(adj, s, best', cameFrom[n := current], lim)
      && Frontier(adj, best', stack + [Frame(n, depth + 1)], lim, t, {current})
      && Lowered(best, best')
      && Potential(adj, best', lim + 1) < Potential(adj, best, lim + 1)
  {
    ImproveDepthTree(adj, colors, s, current, depth, lim, n, best, cameFrom);
    ImproveFrontier(adj, best, stack, lim, t, current, n, depth + 1);
    Lowering(adj, best, lim + 1, n, depth + 1);
  }

  /** Giving `n` the depth one past a frame of `current` keeps the depth tree. */
  lemma ImproveDepthTree(adj: Adjacency, colors: Colors, s: Cell, current: Cell, depth: nat, lim: nat, n: Cell,
                         best: CostMap, cameFrom: Predecessors)
    requires WellFormed(adj, colors) && DepthTree(adj, s, best, cameFrom, lim)
    requires current in best && best[current] <= depth && depth + 1 <= lim && Step(adj, current, n)
    requires n !in best || depth + 1 < best[n]
    ensures n != s && n != current && n in adj
    ensures DepthTree(adj, s, best[n := depth + 1], cameFrom[n := current], lim)
  {
    assert n != current by {
      assert Orthogonal(current, n);
    }
    assert RankedBy(cameFrom[n := current], best[n := depth + 1]);
  }

  /** Lowering `n` and pushing its frame keeps every other cell settled and a reached end on the stack. */
  lemma ImproveFrontier(adj: Adjacency, best: CostMap, stack: seq<Frame>, lim: nat, t: Cell, current: Cell,
                        n: Cell, k: nat)
    requires Frontier(adj, best, stack, lim, t, {current}) && k <= lim
    requires n !in best || k < best[n]
    ensures Frontier(adj, best[n := k], stack + [Frame(n, k)], lim, t, {current})
  {
    var best', stack' := best[n := k], stack + [Frame(n, k)];
    assert Framed(best', stack', lim) by {
      forall i | 0 <= i < |stack'|
        ensures stack'[i].cell in best' && best'[stack'[i].cell] <= stack'[i].depth <= lim
      {
        if i < |stack| {
          assert stack'[i] == stack[i];
        }
      }
    }
    assert Frame(n, k) in stack' by {
      assert stack'[|stack|] == Frame(n, k);
    }
    forall v | v in best' && v != current && v != n
      ensures Settled(adj, best', stack', lim, v)
    {
      assert Settled(adj, best, stack, lim, v);
    }
  }

  /**
    `ids`: `dls` with limits 1 to 99 in turn on the same grid, stopping at the
    first that succeeds. It succeeds exactly when the end is at most 99 steps
    away, and then the path it shows is a shortest one; `depth` is the limit
    that succeeded, the first to reach the end.
   */
  method Ids(adj: Adjacency, colors: Colors, start: Option<Cell>, end: Option<Cell>)
    returns (found: bool, painted: Colors, cameFrom: Predecessors, draws: nat, depth: nat)
    requires WellFormed(adj, colors)
    requires start.Some? ==> start.value in adj
    requires end.Some? ==> end.value in adj
    ensures start.None? || end.None? ==>
      !found && painted == colors && cameFrom == map[] && draws == 0
    ensures start.Some? && end.Some? ==>
      var s, t := start.value, end.value;
      && (found <==> Within(adj, s, t, 99))
      && (found ==>
            && 1 <= depth <= 99 && Within(adj, s, t, depth) && (depth == 1 || !Within(adj, s, t, depth - 1))
            && Terminates(cameFrom, t)
            && var p := Trace(cameFrom, t);
            && ChainTo(adj, p, s) && |p| - 1 <= draws
            && IsDistance(adj, s, t, |p| - 1)
            && RouteShown(colors, painted, p, s, t))
      && (!found ==> Explored(colors, painted) && painted[s] == colors[s])
  {
    if start.None? || end.None? {
      return false, colors, map[], 0, 0;
    }
    var s, t := start.value, end.value;
    painted := colors;
    draws := 0;
    var limit := 1;
    while limit < 100
      invariant 1 <= limit <= 100
      invariant WellFormed(adj, painted) && Explored(colors, painted) && painted[s] == colors[s]
      invariant limit == 1 || !Within(adj, s, t, limit - 1)
    {
      var ok, after, links, steps := Dls(adj, painted, start, end, limit);
      draws := draws + steps;
      if ok {
        var p := Trace(links, t);
        RouteShownAfter(colors, painted, after, p, s, t);
        FirstDepth(adj, s, t, limit, p);
        return true, after, links, draws, limit;
      }
      ExploredTransitive(colors, painted, after);
      ExploredWellFormed(adj, painted, after);
      painted := after;
      limit := limit + 1;
    }
    return false, painted, map[], draws, 0;
  }

  /**
    The first limit that reaches the end shows a shortest path: a chain back
    to the start of at most `limit` steps, when no walk of `limit - 1` steps
    exists, has exactly the fewest steps.
   */
  lemma FirstDepth(adj: Adjacency, s: Cell, t: Cell, limit: nat, p: seq<Cell>)
    requires ChainTo(adj, p, s) && p[0] == t && NoDuplicates(p) && |p| - 1 <= limit
    requires limit == 1 || !Within(adj, s, t, limit - 1)
    ensures IsDistance(adj, s, t, |p| - 1)
  {
    ChainWithin(adj, p, s);
    if |p| - 1 < limit && limit != 1 {
      WithinMonotone(adj, s, t, |p| - 1, limit - 1);
    }
  }
}
