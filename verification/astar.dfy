/**
  `astar`: a priority queue of (f score, insertion number, cell) entries next
  to a set of the cells it holds. A cell whose g score improves while it is
  already queued keeps its old entry and key; a cell that was taken out is
  queued again when its g score improves, since there is no closed set.
 */
module AStar {
  import opened Wrappers
  import opened Grid
  import opened Backtrack
  import opened Heuristic
  import opened MinQueue
  import opened Costs

  /**
    How a call ends: it returns a verdict, or it raises `AttributeError`
    because the start or the end is missing when the heuristic of the start
    is computed.
   */
  datatype Outcome = Returned(found: bool) | AttributeError

  /** The variables of one run: scores, predecessors, the heap with its insertion counter, the open set, the colours. */
  datatype Search = Search(g: CostMap, cameFrom: Predecessors, heap: seq<Entry>,
                           openSet: set<Cell>, count: nat, painted: Colors)

  /**
    The f score of a scored cell: its g score plus the Manhattan distance to
    the end. Every write to `f_score` stores exactly this sum for a cell whose
    g score is written alongside, so it is computed here rather than stored.
   */
  function FScore(g: CostMap, t: Cell, v: Cell): (r: nat)
    requires v in g
    ensures r >= g[v] && (r == g[v] <==> v == t)
  {
    g[v] + ManhattanDistance(v, t)
  }

  /**
    The heap holds scored cells under insertion numbers no larger than the
    counter, in increasing insertion order, each cell at most once, and the
    open set is exactly the cells it holds.
   */
  ghost predicate OpenHeap(heap: seq<Entry>, g: CostMap, count: nat, openSet: set<Cell>) {
    && (forall i :: 0 <= i < |heap| ==> heap[i].cell in g && heap[i].tie <= count)
    && (forall i, j :: 0 <= i < j < |heap| ==> heap[i].tie < heap[j].tie)
    && openSet == Elements(Cells(heap)) && NoDuplicates(Cells(heap))
  }

  /** Every scored cell outside `skip` is open or relaxed; the end, once scored and unless skipped, is open. */
  ghost predicate Frontier(adj: Adjacency, g: CostMap, openSet: set<Cell>, t: Cell, skip: set<Cell>) {
    && (forall v :: v in g && v !in skip ==> v in openSet || Relaxed(adj, g, v))
    && (t in g && t !in skip ==> t in openSet)
  }

  /** What holds between steps of a run on a well-formed grid. */
  ghost predicate Valid(adj: Adjacency, colors: Colors, s: Cell, t: Cell, st: Search, skip: set<Cell>) {
    && WellFormed(adj, colors)
    && Tree(adj, s, st.g, st.cameFrom)
    && Painting(colors, s, st.painted)
    && OpenHeap(st.heap, st.g, st.count, st.openSet)
    && Frontier(adj, st.g, st.openSet, t, skip)
  }

  /**
    `astar`. With both cells present it returns whether the end was reached,
    and on success shows a path it can be reached by; with either missing it
    raises before touching the grid.
   */
  method Astar(adj: Adjacency, colors: Colors, start: Option<Cell>, end: Option<Cell>)
    returns (outcome: Outcome, painted: Colors, cameFrom: Predecessors, draws: nat)
    requires WellFormed(adj, colors)
    requires start.Some? ==> start.value in adj
    requires end.Some? ==> end.value in adj
    ensures start.None? || end.None? ==>
      outcome == AttributeError && painted == colors && cameFrom == map[] && draws == 0
    ensures start.Some? && end.Some? ==>
      var s, t := start.value, end.value;
      && outcome.Returned?
      && (outcome.found <==> Reachable(adj, s, t))
      && (outcome.found ==>
            && Terminates(cameFrom, t)
            && var p := Trace(cameFrom, t);
            && ChainTo(adj, p, s) && |p| - 1 <= draws
            && RouteShown(colors, painted, p, s, t))
      && (!outcome.found ==> Explored(colors, painted) && painted[s] == colors[s])
  {
    if start.None? || end.None? {
      return AttributeError, colors, map[], 0;
    }
    var s, t := start.value, end.value;
    var st := Search(map[s := 0], map[], [Entry(0, 0, s)], {s}, 0, colors);
    assert Cells(st.heap) == [s];
    assert Elements([s]) == {s} by {
      ElementsAppend([], s);
    }
    draws := 0;
    while |st.heap| > 0
      invariant Valid(adj, colors, s, t, st, {})
      decreases Potential(adj, st.g, |adj|), |st.heap|
    {
      var e, rest;
      ghost var i;
      e, rest, i := ExtractMin(st.heap);
      var current := e.cell;
      Pop(adj, colors, s, t, st, i);
      st := st.(heap := rest, openSet := st.openSet - {current});
      if current == t {
        TreeRoute(adj, s, t, st.g.Keys, st.cameFrom, st.g);
        var steps;
        painted, steps := Reconstruct(st.cameFrom, s, t, colors, st.painted);
        draws := draws + steps;
        return Returned(true), painted, st.cameFrom, draws;
      }
      st := Visit(adj, colors, s, t, current, st);
      draws := draws + 1;
    }
    Drained(adj, colors, s, t, st);
    return Returned(false), st.painted, st.cameFrom, draws;
  }

  /** Taking out the least entry: its cell leaves the open set, and it is the one about to be expanded. */
  lemma Pop(adj: Adjacency, colors: Colors, s: Cell, t: Cell, st: Search, i: nat)
    requires Valid(adj, colors, s, t, st, {}) && i < |st.heap|
    ensures st.heap[i].cell in st.openSet
    ensures Valid(adj, colors, s, t,
                  st.(heap := Remove(st.heap, i), openSet := st.openSet - {st.heap[i].cell}),
                  {st.heap[i].cell})
  {
    HeapPop(st.heap, st.g, st.count, st.openSet, i);
    FrontierPop(adj, st.g, st.openSet, t, st.heap[i].cell);
  }

  /** Removing an entry from the heap and its cell from the open set keeps them in step. */
  lemma HeapPop(heap: seq<Entry>, g: CostMap, count: nat, openSet: set<Cell>, i: nat)
    requires OpenHeap(heap, g, count, openSet) && i < |heap|
    ensures heap[i].cell in openSet
    ensures OpenHeap(Remove(heap, i), g, count, openSet - {heap[i].cell})
  {
    var rest := Remove(heap, i);
    ElementsContain(Cells(heap));
    CellsRemove(heap, i);
    ElementsRemove(Cells(heap), i);
    NoDuplicatesRemove(Cells(heap), i);
    RemoveIncreasing(heap, i);
  }

  /** The cell taken out is skipped until it has been expanded. */
  lemma FrontierPop(adj: Adjacency, g: CostMap, openSet: set<Cell>, t: Cell, c: Cell)
    requires Frontier(adj, g, openSet, t, {})
    ensures Frontier(adj, g, openSet - {c}, t, {c})
  {
  }

  /** With the heap empty, every scored cell is relaxed and the end was never scored, so it is unreachable. */
  lemma Drained(adj: Adjacency, colors: Colors, s: Cell, t: Cell, st: Search)
    requires Valid(adj, colors, s, t, st, {}) && |st.heap| == 0
    ensures !Reachable(adj, s, t)
  {
    assert st.openSet == {};
    AllRelaxed(adj, s, st.g, st.cameFrom);
  }

  /** One pass of the main loop for a cell other than the end: relax its neighbours, then close it. */
  method Visit(adj: Adjacency, colors: Colors, s: Cell, t: Cell, current: Cell, st: Search)
    returns (st': Search)
    requires Valid(adj, colors, s, t, st, {current}) && current in st.g && current != t
    ensures Valid(adj, colors, s, t, st', {})
    ensures Potential(adj, st'.g, |adj|) < Potential(adj, st.g, |adj|) || (st'.g == st.g && st'.heap == st.heap)
  {
    st' := Expand(adj, colors, s, t, current, st);
    if current != s {
      Closing(colors, s, st'.painted, current);
      st' := st'.(painted := st'.painted[current := Closed]);
    }
  }

  /** The inner `for neighbor in current.neighbors` loop; afterwards `current` is relaxed. */
  method Expand(adj: Adjacency, colors: Colors, ghost s: Cell, t: Cell, current: Cell, st: Search)
    returns (st': Search)
    requires Valid(adj, colors, s, t, st, {current}) && current in st.g && current != t
    ensures Valid(adj, colors, s, t, st', {})
    ensures Relaxed(adj, st'.g, current)
    ensures Potential(adj, st'.g, |adj|) < Potential(adj, st.g, |adj|) || (st'.g == st.g && st'.heap == st.heap)
  {
    st' := st;
    var neighbors := adj[current];
    var i := 0;
    while i < |neighbors|
      invariant i <= |neighbors|
      invariant Valid(adj, colors, s, t, st', {current})
      invariant Lowered(st.g, st'.g) && st'.g[current] == st.g[current]
      invariant Potential(adj, st'.g, |adj|) < Potential(adj, st.g, |adj|) || (st'.g == st.g && st'.heap == st.heap)
      invariant forall j :: 0 <= j < i ==> neighbors[j] in st'.g && st'.g[neighbors[j]] <= st.g[current] + 1
    {
      ghost var before := st'.g;
      st' := Relax(adj, colors, s, t, current, neighbors[i], st');
      StillBelow(before, st'.g, neighbors, i, st.g[current] + 1);
      i := i + 1;
    }
    NeighborsRelaxed(adj, st'.g, current, neighbors);
  }

  /** One relaxation: when going through `current` gives the neighbour a lower g score, lower it. */
  method Relax(adj: Adjacency, colors: Colors, ghost s: Cell, t: Cell, current: Cell, neighbor: Cell, st: Search)
    returns (st': Search)
    requires Valid(adj, colors, s, t, st, {current}) && current in st.g && current != t
    requires Step(adj, current, neighbor)
    ensures Valid(adj, colors, s, t, st', {current})
    ensures Lowered(st.g, st'.g) && st'.g[current] == st.g[current]
    ensures neighbor in st'.g && st'.g[neighbor] <= st.g[current] + 1
    ensures st.heap <= st'.heap && st.count <= st'.count
    ensures Potential(adj, st'.g, |adj|) < Potential(adj, st.g, |adj|) || (st'.g == st.g && st'.heap == st.heap)
  {
    if neighbor !in st.g || st.g[current] + 1 < st.g[neighbor] {
      st' := Lower(adj, colors, s, t, current, neighbor, st);
    } else {
      st' := st;
    }
  }

  /**
    The improving branch of a relaxation: record `current` as the
    neighbour's predecessor and both of its new scores, and queue and open the
    neighbour unless it is already open. An entry already queued is never
    re-keyed: the heap only grows at its end, under a fresh insertion number.
   */
  method Lower(adj: Adjacency, colors: Colors, ghost s: Cell, t: Cell, current: Cell, neighbor: Cell, st: Search)
    returns (st': Search)
    requires Valid(adj, colors, s, t, st, {current}) && current in st.g && current != t
    requires Step(adj, current, neighbor) && (neighbor !in st.g || st.g[current] + 1 < st.g[neighbor])
    ensures Valid(adj, colors, s, t, st', {current})
    ensures st'.g == st.g[neighbor := st.g[current] + 1] && st'.cameFrom == st.cameFrom[neighbor := current]
    ensures Lowered(st.g, st'.g) && Potential(adj, st'.g, |adj|) < Potential(adj, st.g, |adj|)
    ensures neighbor in st.openSet ==>
      && st'.heap == st.heap && st'.openSet == st.openSet
      && st'.count == st.count && st'.painted == st.painted
    ensures neighbor !in st.openSet ==>
      && st'.heap == st.heap + [Entry(FScore(st'.g, t, neighbor), st.count + 1, neighbor)]
      && st'.openSet == st.openSet + {neighbor}
      && st'.count == st.count + 1 && st'.painted == st.painted[neighbor := Open]
  {
    var scored := Record(adj, colors, s, t, current, neighbor, st);
    st' := Admit(adj, colors, s, t, current, neighbor, scored);
  }

  /**
    `if neighbor not in open_set`: a neighbour not yet open is pushed under
    the next insertion number and opened; an open one keeps the entry it has.
   */
  method Admit(adj: Adjacency, colors: Colors, ghost s: Cell, t: Cell, current: Cell, neighbor: Cell, st: Search)
    returns (st': Search)
    requires Valid(adj, colors, s, t, st, {current, neighbor}) && neighbor in st.g && neighbor != s
    ensures Valid(adj, colors, s, t, st', {current})
    ensures st'.g == st.g && st'.cameFrom == st.cameFrom
    ensures neighbor in st.openSet ==> st' == st
    ensures neighbor !in st.openSet ==>
      && st'.heap == st.heap + [Entry(FScore(st.g, t, neighbor), st.count + 1, neighbor)]
      && st'.openSet == st.openSet + {neighbor}
      && st'.count == st.count + 1 && st'.painted == st.painted[neighbor := Open]
  {
    if neighbor !in st.openSet {
      st' := Enqueue(adj, colors, s, t, current, neighbor, st);
    } else {
      AlreadyOpen(adj, colors, s, t, current, neighbor, st);
      st' := st;
    }
  }

  /**
    `came_from[neighbor] = current` and the two score writes: only the
    neighbour's g score changes, it falls, and the search stays valid with the
    neighbour set aside until it is open.
   */
  method Record(adj: Adjacency, colors: Colors, ghost s: Cell, t: Cell, current: Cell, neighbor: Cell, st: Search)
    returns (scored: Search)
    requires Valid(adj, colors, s, t, st, {current}) && current in st.g && current != t
    requires Step(adj, current, neighbor) && (neighbor !in st.g || st.g[current] + 1 < st.g[neighbor])
    ensures Valid(adj, colors, s, t, scored, {current, neighbor}) && neighbor != s
    ensures scored.g == st.g[neighbor := st.g[current] + 1] && scored.cameFrom == st.cameFrom[neighbor := current]
    ensures scored.heap == st.heap && scored.openSet == st.openSet
    ensures scored.count == st.count && scored.painted == st.painted
    ensures Lowered(st.g, scored.g)
    ensures Potential(adj, scored.g, |adj|) < Potential(adj, st.g, |adj|)
  {
    RecordValid(adj, colors, s, t, current, neighbor, st);
    RecordLowers(adj, t, current, neighbor, st);
    scored := Recorded(t, current, neighbor, st);
  }

  /** The scores and predecessor of a neighbour reached more cheaply through `current`. */
  function Recorded(t: Cell, current: Cell, neighbor: Cell, st: Search): (r: Search)
    requires current in st.g
  {
    var temp := st.g[current] + 1;
    st.(g := st.g[neighbor := temp], cameFrom := st.cameFrom[neighbor := current])
  }

  /** Recording lowers the neighbour's g score to one more than `current`'s and raises none. */
  lemma RecordLowers(adj: Adjacency, t: Cell, current: Cell, neighbor: Cell, st: Search)
    requires current in st.g && (neighbor !in st.g || st.g[current] + 1 < st.g[neighbor])
    requires neighbor in adj && st.g[current] + 1 < |adj|
    ensures var r := Recorded(t, current, neighbor, st);
      && Lowered(st.g, r.g) && r.g[current] == st.g[current]
      && neighbor in r.g && r.g[neighbor] == st.g[current] + 1
      && Potential(adj, r.g, |adj|) < Potential(adj, st.g, |adj|)
  {
    Lowering(adj, st.g, |adj|, neighbor, st.g[current] + 1);
  }

  /** Recording the improvement keeps the search valid, with the neighbour skipped until it is open. */
  lemma RecordValid(adj: Adjacency, colors: Colors, s: Cell, t: Cell, current: Cell, neighbor: Cell, st: Search)
    requires Valid(adj, colors, s, t, st, {current}) && current in st.g && current != t
    requires Step(adj, current, neighbor) && (neighbor !in st.g || st.g[current] + 1 < st.g[neighbor])
    ensures st.g[current] + 1 < |adj| && neighbor in adj && neighbor != s
    ensures Valid(adj, colors, s, t, Recorded(t, current, neighbor, st), {current, neighbor})
  {
    assert neighbor in adj;
    RecordTree(adj, s, t, current, neighbor, st);
    RecordRest(adj, colors, s, t, current, neighbor, st);
  }

  /** The predecessor tree after recording. */
  lemma RecordTree(adj: Adjacency, s: Cell, t: Cell, current: Cell, neighbor: Cell, st: Search)
    requires Tree(adj, s, st.g, st.cameFrom) && current in st.g && neighbor in adj
    requires Step(adj, current, neighbor) && (neighbor !in st.g || st.g[current] + 1 < st.g[neighbor])
    ensures st.g[current] + 1 < |adj| && neighbor != s
    ensures var r := Recorded(t, current, neighbor, st); Tree(adj, s, r.g, r.cameFrom)
  {
    ImproveTree(adj, s, current, neighbor, st.g, st.cameFrom);
    assert Recorded(t, current, neighbor, st)
        == st.(g := st.g[neighbor := st.g[current] + 1], cameFrom := st.cameFrom[neighbor := current]);
  }

  /** The heap, the open set and the colours after recording. */
  lemma RecordRest(adj: Adjacency, colors: Colors, s: Cell, t: Cell, current: Cell, neighbor: Cell, st: Search)
    requires Painting(colors, s, st.painted) && OpenHeap(st.heap, st.g, st.count, st.openSet)
    requires Frontier(adj, st.g, st.openSet, t, {current}) && current in st.g
    requires neighbor !in st.g || st.g[current] + 1 < st.g[neighbor]
    ensures var r := Recorded(t, current, neighbor, st);
      && Painting(colors, s, r.painted) && OpenHeap(r.heap, r.g, r.count, r.openSet)
      && Frontier(adj, r.g, r.openSet, t, {current, neighbor})
  {
    var temp := st.g[current] + 1;
    HeapLowered(st.heap, st.g, st.count, st.openSet, neighbor, temp);
    FrontierLowered(adj, st.g, st.openSet, t, current, neighbor, temp);
  }

  /** A neighbour that is already open keeps its entry, and need no longer be skipped. */
  lemma AlreadyOpen(adj: Adjacency, colors: Colors, s: Cell, t: Cell, current: Cell, neighbor: Cell, st: Search)
    requires Valid(adj, colors, s, t, st, {current, neighbor}) && neighbor in st.openSet
    ensures Valid(adj, colors, s, t, st, {current})
  {
    FrontierOpened(adj, st.g, st.openSet, st.openSet, t, current, neighbor);
  }

  /** `open_set.put` and `open_set_hash.add` for a neighbour not yet open, then painting it open. */
  method Enqueue(adj: Adjacency, colors: Colors, ghost s: Cell, t: Cell, current: Cell, neighbor: Cell, st: Search)
    returns (st': Search)
    requires Valid(adj, colors, s, t, st, {current, neighbor})
    requires neighbor in st.g && neighbor != s && neighbor !in st.openSet
    ensures Valid(adj, colors, s, t, st', {current})
    ensures st'.heap == st.heap + [Entry(FScore(st.g, t, neighbor), st.count + 1, neighbor)]
    ensures st'.count == st.count + 1 && st'.openSet == st.openSet + {neighbor}
    ensures st'.painted == st.painted[neighbor := Open]
    ensures st'.g == st.g && st'.cameFrom == st.cameFrom
  {
    var count := st.count + 1;
    HeapPush(st.heap, st.g, st.count, st.openSet, neighbor, FScore(st.g, t, neighbor));
    FrontierOpened(adj, st.g, st.openSet, st.openSet + {neighbor}, t, current, neighbor);
    Opened(colors, s, st.painted, neighbor);
    st' := st.(heap := st.heap + [Entry(FScore(st.g, t, neighbor), count, neighbor)], openSet := st.openSet + {neighbor},
               count := count, painted := st.painted[neighbor := Open]);
  }

  /** Scoring `n` does not disturb the heap. */
  lemma HeapLowered(heap: seq<Entry>, g: CostMap, count: nat, openSet: set<Cell>, n: Cell, k: nat)
    requires OpenHeap(heap, g, count, openSet)
    ensures OpenHeap(heap, g[n := k], count, openSet)
  {
  }

  /** Lowering the g score of `n` keeps every other cell open or relaxed. */
  lemma FrontierLowered(adj: Adjacency, g: CostMap, openSet: set<Cell>, t: Cell, current: Cell, n: Cell, k: nat)
    requires Frontier(adj, g, openSet, t, {current}) && (n !in g || k < g[n])
    ensures Frontier(adj, g[n := k], openSet, t, {current, n})
  {
    var g' := g[n := k];
    forall v | v in g' && v != current && v != n && v !in openSet
      ensures Relaxed(adj, g', v)
    {
      assert Relaxed(adj, g, v);
    }
  }

  /** Once `n` is open, it need no longer be skipped. */
  lemma FrontierOpened(adj: Adjacency, g: CostMap, openSet: set<Cell>, openSet': set<Cell>, t: Cell,
                       current: Cell, n: Cell)
    requires Frontier(adj, g, openSet, t, {current, n}) && openSet <= openSet' && n in openSet'
    ensures Frontier(adj, g, openSet', t, {current})
  {
  }

  /** Queueing `n` under the next insertion number and adding it to the open set keeps them in step. */
  lemma HeapPush(heap: seq<Entry>, g: CostMap, count: nat, openSet: set<Cell>, n: Cell, key: nat)
    requires OpenHeap(heap, g, count, openSet) && n in g && n !in openSet
    ensures OpenHeap(heap + [Entry(key, count + 1, n)], g, count + 1, openSet + {n})
  {
    var heap' := heap + [Entry(key, count + 1, n)];
    CellsAppend(heap, Entry(key, count + 1, n));
    ElementsAppend(Cells(heap), n);
    ElementsContain(Cells(heap));
    assert NoDuplicates(Cells(heap'));
  }
}
