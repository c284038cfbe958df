/** Breadth-first search: a FIFO frontier, first discovery wins, stop when the end is dequeued. */
module BreadthFirst {
  import opened Wrappers
  import opened Grid
  import opened Backtrack

  /**
    Bookkeeping of the queue: `log` is every cell ever enqueued (the start
    first), without repeats, exactly the visited cells; the first `k` have been
    dequeued and the queue holds the rest.
   */
  ghost predicate QueueLog(s: Cell, enqueued: seq<Cell>, log: seq<Cell>, visited: set<Cell>, k: nat, queue: seq<Cell>) {
    && log == [s] + enqueued
    && NoDuplicates(log)
    && visited == Elements(log)
    && k <= |log|
    && queue == log[k..]
  }

  /**
    The predecessor map is a tree rooted at the start: every other visited cell
    has a predecessor, one level closer, that lists it as a neighbour.
   */
  ghost predicate Tree(adj: Adjacency, s: Cell, visited: set<Cell>, cameFrom: Predecessors, level: map<Cell, nat>) {
    && level.Keys == visited
    && s in level && level[s] == 0
    && cameFrom.Keys == visited - {s}
    && RankedExactly(cameFrom, level)
    && (forall v :: v in cameFrom ==> Step(adj, cameFrom[v], v))
  }

  /** The queue holds levels `d` and `d + 1` only, in non-decreasing order. */
  ghost predicate Levels(queue: seq<Cell>, level: map<Cell, nat>, d: nat) {
    && (forall i :: 0 <= i < |queue| ==> queue[i] in level && d <= level[queue[i]] <= d + 1)
    && (forall i, j :: 0 <= i <= j < |queue| ==> level[queue[i]] <= level[queue[j]])
  }

  /** Everything within `d` steps of the start has been discovered. */
  ghost predicate Covers(adj: Adjacency, s: Cell, visited: set<Cell>, d: int) {
    forall v :: Within(adj, s, v, d) ==> v in visited
  }

  /** No visited cell can be reached in fewer steps than its level. */
  ghost predicate Shortest(adj: Adjacency, s: Cell, visited: set<Cell>, level: map<Cell, nat>) {
    forall v :: v in visited && v in level ==> !Within(adj, s, v, level[v] as int - 1)
  }

  /** Colours so far: only openings and closings, start untouched, no barrier enqueued. */
  ghost predicate Painting(colors: Colors, painted: Colors, s: Cell, enqueued: seq<Cell>) {
    && Explored(colors, painted)
    && s in painted && painted[s] == colors[s]
    && (forall c :: c in enqueued ==> c in colors && colors[c] != Barrier)
  }

  /** Everything the main loop of `bfs` keeps true, with `d` the level of the cell dequeued last. */
  ghost predicate Invariant(adj: Adjacency, colors: Colors, s: Cell, t: Cell,
                            queue: seq<Cell>, visited: set<Cell>, cameFrom: Predecessors, enqueued: seq<Cell>,
                            painted: Colors, log: seq<Cell>, k: nat, level: map<Cell, nat>, d: nat) {
    && WellFormed(adj, colors)
    && visited <= adj.Keys && s in visited
    && QueueLog(s, enqueued, log, visited, k, queue)
    && Tree(adj, s, visited, cameFrom, level)
    && Levels(queue, level, d)
    && (forall i :: 0 <= i < k ==> Expanded(adj, visited, log[i]) && log[i] != t)
    && Covers(adj, s, visited, d) && Shortest(adj, s, visited, level)
    && Painting(colors, painted, s, enqueued)
  }

  /**
    `bfs`. Returns whether the end cell was reached, the grid as the run left
    it, the predecessor map it built, the cells it enqueued after the start
    (in order) and the number of redraws.
   */
  method Bfs(adj: Adjacency, colors: Colors, start: Option<Cell>, end: Option<Cell>)
    returns (found: bool, painted: Colors, cameFrom: Predecessors, enqueued: seq<Cell>, draws: nat)
    requires WellFormed(adj, colors)
    requires start.Some? ==> start.value in adj
    requires end.Some? ==> end.value in adj
    ensures start.None? || end.None? ==>
      !found && painted == colors && cameFrom == map[] && enqueued == [] && draws == 0
    ensures start.Some? && end.Some? ==>
      var s, t := start.value, end.value;
      && (found <==> Reachable(adj, s, t))
      && NoDuplicates([s] + enqueued)
      && (forall c :: c in enqueued ==> c in colors && colors[c] != Barrier)
      && (forall c :: c in cameFrom <==> c in enqueued)
      && (found ==>
            var p := Trace(cameFrom, t);
            && ChainTo(adj, p, s) && |p| - 1 <= draws
            && IsDistance(adj, s, t, |p| - 1)
            && RouteShown(colors, painted, p, s, t))
      && (!found ==> Explored(colors, painted) && painted[s] == colors[s])
  {
    if start.None? || end.None? {
      return false, colors, map[], [], 0;
    }
    var s, t := start.value, end.value;
    var queue := [s];
    var visited := {s};
    cameFrom := map[];
    enqueued := [];
    painted := colors;
    draws := 0;
    ghost var log := [s];
    ghost var k: nat := 0;
    ghost var level: map<Cell, nat> := map[s := 0];
    ghost var d: nat := 0;
    forall v | Within(adj, s, v, 0)
      ensures v in visited
    {
      var p :| IsWalk(adj, p) && p[0] == s && p[|p| - 1] == v && |p| <= 1;
    }
    while |queue| > 0
      invariant Invariant(adj, colors, s, t, queue, visited, cameFrom, enqueued, painted, log, k, level, d)
      decreases adj.Keys - visited, |queue|
    {
      if queue[0] == t {
        ElementsContain(log);
        assert log[k] == t;
        Found(adj, s, t, visited, cameFrom, enqueued, level);
        PredecessorKeys(s, enqueued, log, visited, cameFrom);
        var steps;
        painted, steps := Reconstruct(cameFrom, s, t, colors, painted);
        draws := draws + steps;
        return true, painted, cameFrom, enqueued, draws;
      }
      queue, visited, cameFrom, enqueued, painted, log, k, level, d :=
        Visit(adj, colors, s, t, queue, visited, cameFrom, enqueued, painted, log, k, level, d);
      draws := draws + 1;
    }
    Exhausted(adj, s, t, log, visited);
    PredecessorKeys(s, enqueued, log, visited, cameFrom);
    found := false;
  }

  /**
    One pass of the main loop when the cell at the head of the queue is not the
    end: dequeue it, discover its neighbours, close it unless it is the start.
   */
  method Visit(adj: Adjacency, colors: Colors, s: Cell, ghost t: Cell,
               queue: seq<Cell>, visited: set<Cell>, cameFrom: Predecessors, enqueued: seq<Cell>,
               painted: Colors, ghost log: seq<Cell>, ghost k: nat, ghost level: map<Cell, nat>, ghost d: nat)
    returns (queue': seq<Cell>, visited': set<Cell>, cameFrom': Predecessors, enqueued': seq<Cell>,
             painted': Colors, ghost log': seq<Cell>, ghost k': nat, ghost level': map<Cell, nat>, ghost d': nat)
    requires Invariant(adj, colors, s, t, queue, visited, cameFrom, enqueued, painted, log, k, level, d)
    requires |queue| > 0 && queue[0] != t
    ensures Invariant(adj, colors, s, t, queue', visited', cameFrom', enqueued', painted', log', k', level', d')
    ensures visited < visited' || (visited' == visited && |queue'| < |queue|)
  {
    var current := queue[0];
    d' := if level[current] == d + 1 then d + 1 else d;
    k' := k + 1;
    Dequeue(adj, colors, s, t, queue, visited, cameFrom, enqueued, painted, log, k, level, d, d');
    visited', cameFrom', queue', enqueued', painted', log', level' :=
      Expand(adj, colors, s, current, d', visited, cameFrom, queue[1..], enqueued, painted, log, k', level);
    ExpandedGrows(adj, t, log, log', visited, visited', k');
    Closing(colors, painted', s, enqueued', current);
    painted' := if current != s then painted'[current := Closed] else painted';
  }

  /**
    Dequeuing the head of the queue: once the level rises to `d + 1`, every cell
    within `d + 1` steps has already been discovered.
   */
  lemma Dequeue(adj: Adjacency, colors: Colors, s: Cell, t: Cell,
                queue: seq<Cell>, visited: set<Cell>, cameFrom: Predecessors, enqueued: seq<Cell>,
                painted: Colors, log: seq<Cell>, k: nat, level: map<Cell, nat>, d: nat, d': nat)
    requires Invariant(adj, colors, s, t, queue, visited, cameFrom, enqueued, painted, log, k, level, d)
    requires |queue| > 0 && queue[0] != t
    requires d' == if level[queue[0]] == d + 1 then d + 1 else d
    ensures k + 1 <= |log| && log[k] == queue[0] && level[queue[0]] == d'
    ensures QueueLog(s, enqueued, log, visited, k + 1, queue[1..])
    ensures Levels(queue[1..], level, d')
    ensures Covers(adj, s, visited, d')
  {
    if level[queue[0]] == d + 1 {
      NextLevel(adj, s, log, k, queue, level, visited, d);
    }
    assert log[k] == queue[0];
  }

  /** Closing a dequeued cell other than the start keeps the colouring invariant. */
  lemma Closing(colors: Colors, painted: Colors, s: Cell, enqueued: seq<Cell>, c: Cell)
    requires Painting(colors, painted, s, enqueued) && c in painted
    ensures Painting(colors, if c != s then painted[c := Closed] else painted, s, enqueued)
  {
  }

  /** Cells expanded earlier stay expanded as more cells are discovered. */
  lemma ExpandedGrows(adj: Adjacency, t: Cell, log: seq<Cell>, log': seq<Cell>,
                      visited: set<Cell>, visited': set<Cell>, k: nat)
    requires 0 < k <= |log| && log <= log' && visited <= visited'
    requires forall i :: 0 <= i < k - 1 ==> Expanded(adj, visited, log[i]) && log[i] != t
    requires Expanded(adj, visited', log[k - 1]) && log[k - 1] != t
    ensures forall i :: 0 <= i < k ==> Expanded(adj, visited', log'[i]) && log'[i] != t
  {
    forall i | 0 <= i < k
      ensures Expanded(adj, visited', log'[i]) && log'[i] != t
    {
      assert log'[i] == log[i];
    }
  }

  /** The cells with a predecessor are exactly those enqueued after the start. */
  lemma PredecessorKeys(s: Cell, enqueued: seq<Cell>, log: seq<Cell>, visited: set<Cell>, cameFrom: Predecessors)
    requires log == [s] + enqueued && NoDuplicates(log)
    requires visited == Elements(log) && cameFrom.Keys == visited - {s}
    ensures forall c :: c in cameFrom <==> c in enqueued
  {
    ElementsContain(log);
    forall c | c in enqueued
      ensures c in cameFrom
    {
      var i :| 0 <= i < |enqueued| && enqueued[i] == c;
      assert log[i + 1] == c && log[0] == s;
    }
    forall c | c in cameFrom
      ensures c in enqueued
    {
      var i := ElementsIndex(log, c);
      assert i != 0;
      assert enqueued[i - 1] == c;
    }
  }

  /** What holds while the neighbours of `current`, at level `d`, are being discovered. */
  ghost predicate Discovery(adj: Adjacency, colors: Colors, s: Cell, current: Cell, d: nat,
                            visited: set<Cell>, cameFrom: Predecessors, queue: seq<Cell>, enqueued: seq<Cell>,
                            painted: Colors, log: seq<Cell>, k: nat, level: map<Cell, nat>) {
    && WellFormed(adj, colors)
    && visited <= adj.Keys && s in visited
    && QueueLog(s, enqueued, log, visited, k, queue)
    && Tree(adj, s, visited, cameFrom, level) && current in level && level[current] == d
    && Levels(queue, level, d)
    && Covers(adj, s, visited, d) && Shortest(adj, s, visited, level)
    && Painting(colors, painted, s, enqueued)
  }

  /** The inner `for neighbor in current.neighbors` loop of `bfs`. */
  method Expand(adj: Adjacency, colors: Colors, ghost s: Cell, current: Cell, ghost d: nat,
                visited: set<Cell>, cameFrom: Predecessors, queue: seq<Cell>, enqueued: seq<Cell>,
                painted: Colors, ghost log: seq<Cell>, ghost k: nat, ghost level: map<Cell, nat>)
    returns (visited': set<Cell>, cameFrom': Predecessors, queue': seq<Cell>, enqueued': seq<Cell>,
             painted': Colors, ghost log': seq<Cell>, ghost level': map<Cell, nat>)
    requires Discovery(adj, colors, s, current, d, visited, cameFrom, queue, enqueued, painted, log, k, level)
    ensures Discovery(adj, colors, s, current, d, visited', cameFrom', queue', enqueued', painted', log', k, level')
    ensures visited <= visited' && log <= log'
    ensures visited' == visited ==> queue' == queue
    ensures Expanded(adj, visited', current)
  {
    visited', cameFrom', queue', enqueued', painted', log', level' :=
      visited, cameFrom, queue, enqueued, painted, log, level;
    var neighbors := adj[current];
    var i := 0;
    while i < |neighbors|
      invariant i <= |neighbors|
      invariant Discovery(adj, colors, s, current, d, visited', cameFrom', queue', enqueued', painted', log', k, level')
      invariant visited <= visited' && log <= log'
      invariant visited' == visited ==> queue' == queue
      invariant forall j :: 0 <= j < i ==> neighbors[j] in visited'
    {
      ghost var before := visited';
      visited', cameFrom', queue', enqueued', painted', log', level' :=
        Discover(adj, colors, s, current, neighbors[i], d, visited', cameFrom', queue', enqueued', painted', log', k, level');
      StillIn(before, visited', neighbors, i);
      i := i + 1;
    }
    ListedExpanded(adj, visited', current);
  }

  /** One pass of the inner loop: skip a visited neighbour or a barrier, otherwise discover it. */
  method Discover(adj: Adjacency, colors: Colors, ghost s: Cell, current: Cell, neighbor: Cell, ghost d: nat,
                  visited: set<Cell>, cameFrom: Predecessors, queue: seq<Cell>, enqueued: seq<Cell>,
                  painted: Colors, ghost log: seq<Cell>, ghost k: nat, ghost level: map<Cell, nat>)
    returns (visited': set<Cell>, cameFrom': Predecessors, queue': seq<Cell>, enqueued': seq<Cell>,
             painted': Colors, ghost log': seq<Cell>, ghost level': map<Cell, nat>)
    requires Discovery(adj, colors, s, current, d, visited, cameFrom, queue, enqueued, painted, log, k, level)
    requires Step(adj, current, neighbor)
    ensures Discovery(adj, colors, s, current, d, visited', cameFrom', queue', enqueued', painted', log', k, level')
    ensures visited <= visited' && log <= log' && neighbor in visited'
    ensures visited' == visited ==> queue' == queue
    ensures neighbor !in visited ==>
      && visited' == visited + {neighbor} && cameFrom' == cameFrom[neighbor := current]
      && queue' == queue + [neighbor] && enqueued' == enqueued + [neighbor]
      && painted' == painted[neighbor := Open]
    ensures neighbor in visited ==>
      && visited' == visited && cameFrom' == cameFrom && queue' == queue
      && enqueued' == enqueued && painted' == painted
  {
    assert painted[neighbor] != Barrier;
    if neighbor in visited || painted[neighbor] == Barrier {
      return visited, cameFrom, queue, enqueued, painted, log, level;
    }
    EnqueueKeepsInvariants(adj, colors, s, current, neighbor, d, visited, cameFrom, queue,
                           enqueued, painted, log, k, level);
    visited' := visited + {neighbor};
    cameFrom' := cameFrom[neighbor := current];
    queue' := queue + [neighbor];
    enqueued' := enqueued + [neighbor];
    log' := log + [neighbor];
    painted' := painted[neighbor := Open];
    level' := level[neighbor := d + 1];
  }

  /** Discovering `n` from `current` keeps every invariant of the loop. */
  lemma EnqueueKeepsInvariants(adj: Adjacency, colors: Colors, s: Cell, current: Cell, n: Cell, d: nat,
                               visited: set<Cell>, cameFrom: Predecessors, queue: seq<Cell>, enqueued: seq<Cell>,
                               painted: Colors, log: seq<Cell>, k: nat, level: map<Cell, nat>)
    requires Discovery(adj, colors, s, current, d, visited, cameFrom, queue, enqueued, painted, log, k, level)
    requires Step(adj, current, n) && n !in visited
    ensures Discovery(adj, colors, s, current, d, visited + {n}, cameFrom[n := current], queue + [n],
                      enqueued + [n], painted[n := Open], log + [n], k, level[n := d + 1])
  {
    EnqueueKeepsLog(s, enqueued, log, visited, k, queue, n);
    EnqueueKeepsTree(adj, s, visited, cameFrom, level, current, n, d);
    EnqueueKeepsLevels(queue, level, d, n);
    EnqueueKeepsDistances(adj, s, visited, level, d, n);
    EnqueueKeepsPainting(adj, colors, painted, s, enqueued, current, n, visited);
  }

  lemma EnqueueKeepsLevels(queue: seq<Cell>, level: map<Cell, nat>, d: nat, n: Cell)
    requires Levels(queue, level, d) && n !in level
    ensures Levels(queue + [n], level[n := d + 1], d)
  {
  }

  lemma EnqueueKeepsDistances(adj: Adjacency, s: Cell, visited: set<Cell>, level: map<Cell, nat>, d: nat, n: Cell)
    requires Covers(adj, s, visited, d) && Shortest(adj, s, visited, level) && n !in visited
    ensures Covers(adj, s, visited + {n}, d) && Shortest(adj, s, visited + {n}, level[n := d + 1])
  {
  }

  lemma EnqueueKeepsPainting(adj: Adjacency, colors: Colors, painted: Colors, s: Cell, enqueued: seq<Cell>,
                             current: Cell, n: Cell, visited: set<Cell>)
    requires WellFormed(adj, colors) && Step(adj, current, n) && s in visited && n !in visited
    requires Painting(colors, painted, s, enqueued)
    ensures Painting(colors, painted[n := Open], s, enqueued + [n])
  {
  }

  lemma EnqueueKeepsLog(s: Cell, enqueued: seq<Cell>, log: seq<Cell>, visited: set<Cell>, k: nat, queue: seq<Cell>, n: Cell)
    requires QueueLog(s, enqueued, log, visited, k, queue) && n !in visited
    ensures QueueLog(s, enqueued + [n], log + [n], visited + {n}, k, queue + [n])
  {
    assert (log + [n])[k..] == log[k..] + [n];
    ElementsAppend(log, n);
    ElementsContain(log);
  }

  lemma EnqueueKeepsTree(adj: Adjacency, s: Cell, visited: set<Cell>, cameFrom: Predecessors,
                         level: map<Cell, nat>, current: Cell, n: Cell, d: nat)
    requires Tree(adj, s, visited, cameFrom, level) && current in visited && level[current] == d
    requires Step(adj, current, n) && n !in visited
    ensures Tree(adj, s, visited + {n}, cameFrom[n := current], level[n := d + 1])
  {
  }

  /**
    When the head of the queue is one level deeper than the last cell
    dequeued, every cell of level `d` or less has been expanded, so
    everything within `d + 1` steps has been discovered.
   */
  lemma NextLevel(adj: Adjacency, s: Cell, log: seq<Cell>, k: nat, queue: seq<Cell>,
                  level: map<Cell, nat>, visited: set<Cell>, d: nat)
    requires visited == Elements(log) && k <= |log| && queue == log[k..]
    requires |queue| > 0 && level.Keys == visited
    requires Levels(queue, level, d) && level[queue[0]] == d + 1
    requires forall i :: 0 <= i < k ==> Expanded(adj, visited, log[i])
    requires Covers(adj, s, visited, d) && Shortest(adj, s, visited, level)
    ensures Covers(adj, s, visited, d + 1)
  {
    forall w | Within(adj, s, w, d + 1)
      ensures w in visited
    {
      var u := WithinSplit(adj, s, w, d);
      if !Within(adj, s, w, d) {
        var i := ElementsIndex(log, u);
      }
    }
  }

  /** Dequeuing the end cell: its predecessor chain is a shortest route from the start. */
  lemma Found(adj: Adjacency, s: Cell, t: Cell, visited: set<Cell>, cameFrom: Predecessors,
              enqueued: seq<Cell>, level: map<Cell, nat>)
    requires Tree(adj, s, visited, cameFrom, level) && Shortest(adj, s, visited, level)
    requires t in visited
    ensures Terminates(cameFrom, t)
    ensures var p := Trace(cameFrom, t);
      && NoDuplicates(p) && Last(p) == s
      && (forall i :: 0 <= i < |p| ==> p[i] in visited)
      && ChainTo(adj, p, s)
      && IsDistance(adj, s, t, |p| - 1)
      && Reachable(adj, s, t)
  {
    TraceRanked(cameFrom, level, t);
    var p := Trace(cameFrom, t);
    assert ChainTo(adj, p, s);
    ChainWithin(adj, p, s);
    WithinIsReachable(adj, s, t, |p| - 1);
  }

  /** An exhausted queue means the end cell cannot be reached. */
  lemma Exhausted(adj: Adjacency, s: Cell, t: Cell, log: seq<Cell>, visited: set<Cell>)
    requires s in visited && visited == Elements(log)
    requires forall i :: 0 <= i < |log| ==> Expanded(adj, visited, log[i]) && log[i] != t
    ensures !Reachable(adj, s, t)
  {
    assert StepClosed(adj, visited) by {
      forall a, b | a in visited && Step(adj, a, b)
        ensures b in visited
      {
        var i := ElementsIndex(log, a);
      }
    }
    if Reachable(adj, s, t) {
      ClosedContainsReachable(adj, visited, s, t);
      var i := ElementsIndex(log, t);
    }
  }
}
