/**
  Depth-first search: a LIFO stack, a cell is pushed when first discovered and
  never again, stop when the end cell is popped.
 */
module DepthFirst {
  import opened Wrappers
  import opened Grid
  import opened Backtrack

  /**
    What holds while the neighbours of `current` are being discovered:
    every discovered cell has been expanded, is `current` or is still on the
    stack; the predecessor map is a tree over the discovered cells, ranked by
    discovery order; colours only opened or closed.
   */
  ghost predicate Discovery(adj: Adjacency, colors: Colors, s: Cell, current: Cell,
                            stack: seq<Cell>, visited: set<Cell>, cameFrom: Predecessors, painted: Colors,
                            popped: set<Cell>, rank: map<Cell, nat>, count: nat) {
    && WellFormed(adj, colors)
    && visited <= adj.Keys && s in visited && current in visited
    && Elements(stack) <= visited
    && (forall v :: v in visited ==> v in popped || v == current || v in Elements(stack))
    && cameFrom.Keys == visited - {s}
    && rank.Keys == visited && RankedBy(cameFrom, rank)
    && (forall v :: v in rank ==> rank[v] < count)
    && (forall v :: v in cameFrom ==> Step(adj, cameFrom[v], v))
    && Explored(colors, painted) && painted[s] == colors[s]
  }

  /** What the main loop of `dfs` keeps true: popped cells are expanded and are not the end. */
  ghost predicate Invariant(adj: Adjacency, colors: Colors, s: Cell, t: Cell,
                            stack: seq<Cell>, visited: set<Cell>, cameFrom: Predecessors, painted: Colors,
                            popped: set<Cell>, rank: map<Cell, nat>, count: nat) {
    && Discovery(adj, colors, s, s, stack, visited, cameFrom, painted, popped, rank, count)
    && (forall v :: v in visited ==> v in popped || v in Elements(stack))
    && popped <= visited
    && (forall v :: v in popped ==> Expanded(adj, visited, v) && v != t)
  }

  /**
    `dfs`. Returns whether the end cell was reached, the grid as the run left
    it, the predecessor map it built and the number of redraws.
   */
  method Dfs(adj: Adjacency, colors: Colors, start: Option<Cell>, end: Option<Cell>)
    returns (found: bool, painted: Colors, cameFrom: Predecessors, draws: nat)
    requires WellFormed(adj, colors)
    requires start.Some? ==> start.value in adj
    requires end.Some? ==> end.value in adj
    ensures start.None? || end.None? ==>
      !found && painted == colors && cameFrom == map[] && draws == 0
    ensures start.Some? && end.Some? ==>
      var s, t := start.value, end.value;
      && (found <==> Reachable(adj, s, t))
      && s !in cameFrom
      && (forall c :: c in cameFrom ==> c in colors && colors[c] != Barrier && Step(adj, cameFrom[c], c))
      && (found ==>
            var p := Trace(cameFrom, t);
            && ChainTo(adj, p, s) && |p| - 1 <= draws
            && RouteShown(colors, painted, p, s, t))
      && (!found ==> Explored(colors, painted) && painted[s] == colors[s])
  {
    if start.None? || end.None? {
      return false, colors, map[], 0;
    }
    var s, t := start.value, end.value;
    var stack := [s];
    var visited := {s};
    cameFrom := map[];
    painted := colors;
    draws := 0;
    ghost var popped: set<Cell> := {};
    ghost var rank: map<Cell, nat> := map[s := 0];
    ghost var count: nat := 1;
    while |stack| > 0
      invariant Invariant(adj, colors, s, t, stack, visited, cameFrom, painted, popped, rank, count)
      decreases adj.Keys - visited, |stack|
    {
      if stack[|stack| - 1] == t {
        ElementsContain(stack);
        TreeRoute(adj, s, t, visited, cameFrom, rank);
        var steps;
        painted, steps := Reconstruct(cameFrom, s, t, colors, painted);
        draws := draws + steps;
        return true, painted, cameFrom, draws;
      }
      stack, visited, cameFrom, painted, popped, rank, count :=
        Visit(adj, colors, s, t, stack, visited, cameFrom, painted, popped, rank, count);
      draws := draws + 1;
    }
    Exhausted(adj, s, t, visited, popped);
    found := false;
  }

  /**
    One pass of the main loop when the top of the stack is not the end: pop
    it, push its undiscovered neighbours, close it unless it is the start.
   */
  method Visit(adj: Adjacency, colors: Colors, s: Cell, ghost t: Cell,
               stack: seq<Cell>, visited: set<Cell>, cameFrom: Predecessors, painted: Colors,
               ghost popped: set<Cell>, ghost rank: map<Cell, nat>, ghost count: nat)
    returns (stack': seq<Cell>, visited': set<Cell>, cameFrom': Predecessors, painted': Colors,
             ghost popped': set<Cell>, ghost rank': map<Cell, nat>, ghost count': nat)
    requires Invariant(adj, colors, s, t, stack, visited, cameFrom, painted, popped, rank, count)
    requires |stack| > 0 && stack[|stack| - 1] != t
    ensures Invariant(adj, colors, s, t, stack', visited', cameFrom', painted', popped', rank', count')
    ensures visited < visited' || (visited' == visited && |stack'| < |stack|)
  {
    var current := stack[|stack| - 1];
    Pop(adj, colors, s, stack, visited, cameFrom, painted, popped, rank, count);
    stack', visited', cameFrom', painted', rank', count' :=
      Expand(adj, colors, s, current, stack[..|stack| - 1], visited, cameFrom, painted, popped, rank, count);
    popped' := popped + {current};
    PoppedExpanded(adj, t, popped, visited, visited', current);
    painted' := if current != s then painted'[current := Closed] else painted';
  }

  /** Popping the top of the stack: it is the cell being expanded, nothing else is lost. */
  lemma Pop(adj: Adjacency, colors: Colors, s: Cell,
            stack: seq<Cell>, visited: set<Cell>, cameFrom: Predecessors, painted: Colors,
            popped: set<Cell>, rank: map<Cell, nat>, count: nat)
    requires Discovery(adj, colors, s, s, stack, visited, cameFrom, painted, popped, rank, count)
    requires forall v :: v in visited ==> v in popped || v in Elements(stack)
    requires |stack| > 0
    ensures Discovery(adj, colors, s, stack[|stack| - 1], stack[..|stack| - 1], visited, cameFrom, painted,
                      popped, rank, count)
  {
    var rest := stack[..|stack| - 1];
    assert Elements(stack) == Elements(rest) + {stack[|stack| - 1]};
    ElementsContain(stack);
  }

  /** Expanding `current` keeps the expanded cells expanded and adds `current` to them. */
  lemma PoppedExpanded(adj: Adjacency, t: Cell, popped: set<Cell>, visited: set<Cell>, visited': set<Cell>,
                       current: Cell)
    requires visited <= visited'
    requires forall v :: v in popped ==> Expanded(adj, visited, v) && v != t
    requires Expanded(adj, visited', current) && current != t
    ensures forall v :: v in popped + {current} ==> Expanded(adj, visited', v) && v != t
  {
  }

  /** The inner `for neighbour in current.neighbors` loop of `dfs`. */
  method Expand(adj: Adjacency, colors: Colors, ghost s: Cell, current: Cell,
                stack: seq<Cell>, visited: set<Cell>, cameFrom: Predecessors, painted: Colors,
                ghost popped: set<Cell>, ghost rank: map<Cell, nat>, ghost count: nat)
    returns (stack': seq<Cell>, visited': set<Cell>, cameFrom': Predecessors, painted': Colors,
             ghost rank': map<Cell, nat>, ghost count': nat)
    requires Discovery(adj, colors, s, current, stack, visited, cameFrom, painted, popped, rank, count)
    ensures Discovery(adj, colors, s, current, stack', visited', cameFrom', painted', popped, rank', count')
    ensures visited <= visited'
    ensures visited' == visited ==> stack' == stack
    ensures Expanded(adj, visited', current)
  {
    stack', visited', cameFrom', painted', rank', count' := stack, visited, cameFrom, painted, rank, count;
    var neighbors := adj[current];
    var i := 0;
    while i < |neighbors|
      invariant i <= |neighbors|
      invariant Discovery(adj, colors, s, current, stack', visited', cameFrom', painted', popped, rank', count')
      invariant visited <= visited'
      invariant visited' == visited ==> stack' == stack
      invariant forall j :: 0 <= j < i ==> neighbors[j] in visited'
    {
      ghost var before := visited';
      stack', visited', cameFrom', painted', rank', count' :=
        Discover(adj, colors, s, current, neighbors[i], stack', visited', cameFrom', painted', popped, rank', count');
      StillIn(before, visited', neighbors, i);
      i := i + 1;
    }
    ListedExpanded(adj, visited', current);
  }

  /** One pass of the inner loop: push the neighbour if it is undiscovered and not a barrier. */
  method Discover(adj: Adjacency, colors: Colors, ghost s: Cell, current: Cell, neighbor: Cell,
                  stack: seq<Cell>, visited: set<Cell>, cameFrom: Predecessors, painted: Colors,
                  ghost popped: set<Cell>, ghost rank: map<Cell, nat>, ghost count: nat)
    returns (stack': seq<Cell>, visited': set<Cell>, cameFrom': Predecessors, painted': Colors,
             ghost rank': map<Cell, nat>, ghost count': nat)
    requires Discovery(adj, colors, s, current, stack, visited, cameFrom, painted, popped, rank, count)
    requires Step(adj, current, neighbor)
    ensures Discovery(adj, colors, s, current, stack', visited', cameFrom', painted', popped, rank', count')
    ensures visited <= visited' && neighbor in visited'
    ensures visited' == visited ==> stack' == stack
    ensures neighbor !in visited ==>
      && visited' == visited + {neighbor} && stack' == stack + [neighbor]
      && cameFrom' == cameFrom[neighbor := current] && painted' == painted[neighbor := Open]
    ensures neighbor in visited ==>
      && visited' == visited && stack' == stack && cameFrom' == cameFrom && painted' == painted
  {
    assert painted[neighbor] != Barrier;
    if neighbor !in visited && painted[neighbor] != Barrier {
      Push(adj, colors, s, current, neighbor, stack, visited, cameFrom, painted, popped, rank, count);
      visited' := visited + {neighbor};
      cameFrom' := cameFrom[neighbor := current];
      stack' := stack + [neighbor];
      painted' := painted[neighbor := Open];
      rank' := rank[neighbor := count];
      count' := count + 1;
    } else {
      stack', visited', cameFrom', painted', rank', count' := stack, visited, cameFrom, painted, rank, count;
    }
  }

  /** Discovering `n` from `current` keeps the tree ranked and the stack accounted for. */
  lemma Push(adj: Adjacency, colors: Colors, s: Cell, current: Cell, n: Cell,
             stack: seq<Cell>, visited: set<Cell>, cameFrom: Predecessors, painted: Colors,
             popped: set<Cell>, rank: map<Cell, nat>, count: nat)
    requires Discovery(adj, colors, s, current, stack, visited, cameFrom, painted, popped, rank, count)
    requires Step(adj, current, n) && n !in visited
    ensures Discovery(adj, colors, s, current, stack + [n], visited + {n}, cameFrom[n := current],
                      painted[n := Open], popped, rank[n := count], count + 1)
  {
    ElementsAppend(stack, n);
  }

  /** An empty stack means every discovered cell was expanded, so the end cannot be reached. */
  lemma Exhausted(adj: Adjacency, s: Cell, t: Cell, visited: set<Cell>, popped: set<Cell>)
    requires s in visited && visited <= popped
    requires forall v :: v in popped ==> Expanded(adj, visited, v) && v != t
    ensures !Reachable(adj, s, t)
  {
    assert StepClosed(adj, visited) by {
      forall a, b | a in visited && Step(adj, a, b)
        ensures b in visited
      {
        assert Expanded(adj, visited, a);
      }
    }
    if Reachable(adj, s, t) {
      ClosedContainsReachable(adj, visited, s, t);
    }
  }
}
