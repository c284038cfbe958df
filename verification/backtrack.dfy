/**
  Path reconstruction, the step every search repeats on success: follow
  `came_from` back from the end cell, marking each cell reached as part of the
  path and redrawing once per step, then restore the end and start markers.
 */
module Backtrack {
  import opened Grid

  /** `came_from`: the cell from which each discovered cell was (last) reached. */
  type Predecessors = map<Cell, Cell>

  /**
    The chain `c`, `cf[c]`, `cf[cf[c]]`, ... up to the first cell without a
    predecessor. Each key is followed at most once, so the chain is finite even
    for a cyclic map; for an acyclic map it is the whole predecessor chain.
   */
  function Trace(cf: Predecessors, c: Cell): (p: seq<Cell>)
    ensures |p| >= 1 && p[0] == c
    ensures forall i :: 0 <= i < |p| - 1 ==> p[i] in cf && p[i + 1] == cf[p[i]]
    decreases cf.Keys
  {
    if c in cf then [c] + Trace(cf - {c}, cf[c]) else [c]
  }

  /** Following predecessors from `c` ends at a cell that has none. */
  predicate Terminates(cf: Predecessors, c: Cell) {
    Last(Trace(cf, c)) !in cf
  }

  /** Predecessors have strictly smaller rank, so the map has no cycle. */
  ghost predicate RankedBy(cf: Predecessors, rank: map<Cell, nat>) {
    forall v :: v in cf ==> v in rank && cf[v] in rank && rank[cf[v]] < rank[v]
  }

  /** Every predecessor has rank exactly one less. */
  ghost predicate RankedExactly(cf: Predecessors, rank: map<Cell, nat>) {
    forall v :: v in cf ==> v in rank && cf[v] in rank && rank[cf[v]] + 1 == rank[v]
  }

  /** `p` leads back from `p[0]` to `s` by neighbour steps taken in reverse. */
  ghost predicate ChainTo(adj: Adjacency, p: seq<Cell>, s: Cell) {
    && |p| > 0
    && Last(p) == s
    && forall i :: 0 <= i < |p| - 1 ==> Step(adj, p[i + 1], p[i])
  }

  /**
    How the grid looks after a successful run that reconstructed `p`: start and
    end markers restored, the cells strictly between them shown as path, and
    every other cell as before or opened or closed.
   */
  ghost predicate RouteShown(before: Colors, after: Colors, p: seq<Cell>, s: Cell, t: Cell) {
    && after.Keys == before.Keys
    && s in after && t in after && (forall i :: 0 <= i < |p| ==> p[i] in after)
    && after[s] == Start
    && (t != s ==> after[t] == End)
    && (forall i :: 0 < i < |p| - 1 ==> after[p[i]] == Path)
    && (forall c :: c in before && c !in p ==> after[c] == before[c] || after[c] == Open || after[c] == Closed)
  }
  /** A route shown over a grid that had only been explored is shown over the grid before the exploring. */
  lemma RouteShownAfter(before: Colors, explored: Colors, after: Colors, p: seq<Cell>, s: Cell, t: Cell)
    requires Explored(before, explored) && RouteShown(explored, after, p, s, t)
    ensures RouteShown(before, after, p, s, t)
  {
  }


  /**
    On a ranked map the chain stops at a cell without predecessor, its ranks
    strictly decrease (so no cell repeats), and it has at most as many steps as
    the rank drops; exactly as many when every link drops the rank by one.
   */
  lemma {:induction false} TraceRanked(cf: Predecessors, rank: map<Cell, nat>, c: Cell)
    requires RankedBy(cf, rank) && c in rank
    ensures var p := Trace(cf, c);
      && Terminates(cf, c)
      && (forall i :: 0 <= i < |p| ==> p[i] in rank)
      && (forall i, j :: 0 <= i < j < |p| ==> rank[p[j]] < rank[p[i]])
      && NoDuplicates(p)
      && |p| - 1 <= rank[c] - rank[Last(p)]
      && (RankedExactly(cf, rank) ==> |p| - 1 == rank[c] - rank[Last(p)])
    decreases cf.Keys
  {
    var p := Trace(cf, c);
    if c in cf {
      var cf' := cf - {c};
      assert RankedBy(cf', rank);
      assert RankedExactly(cf, rank) ==> RankedExactly(cf', rank);
      TraceRanked(cf', rank, cf[c]);
      var q := Trace(cf', cf[c]);
      assert p == [c] + q;
      forall i, j | 0 <= i < j < |p|
        ensures rank[p[j]] < rank[p[i]]
      {
        if i > 0 {
          assert p[i] == q[i - 1] && p[j] == q[j - 1];
        } else if j > 1 {
          assert rank[q[j - 1]] < rank[q[0]];
        }
      }
      assert Last(p) == Last(q);
      assert Last(p) != c by {
        assert rank[Last(p)] < rank[p[0]];
      }
    }
  }

  /**
    A predecessor map over the discovered cells, ranked and made of neighbour
    steps, leads back from every discovered cell to the start.
   */
  lemma TreeRoute(adj: Adjacency, s: Cell, t: Cell, visited: set<Cell>, cf: Predecessors, rank: map<Cell, nat>)
    requires cf.Keys == visited - {s} && rank.Keys == visited && RankedBy(cf, rank)
    requires forall v :: v in cf ==> Step(adj, cf[v], v)
    requires t in visited
    ensures Terminates(cf, t)
    ensures var p := Trace(cf, t);
      && NoDuplicates(p) && Last(p) == s
      && (forall i :: 0 <= i < |p| ==> p[i] in visited)
      && ChainTo(adj, p, s)
      && Within(adj, s, t, |p| - 1)
      && Reachable(adj, s, t)
  {
    TraceRanked(cf, rank, t);
    var p := Trace(cf, t);
    assert ChainTo(adj, p, s);
    ChainWithin(adj, p, s);
    WithinIsReachable(adj, s, t, |p| - 1);
  }

  /** A chain of reverse steps from `t` to `s` is a walk from `s` to `t` of the same length. */
  lemma ChainWithin(adj: Adjacency, p: seq<Cell>, s: Cell)
    requires ChainTo(adj, p, s)
    ensures Within(adj, s, p[0], |p| - 1)
  {
    var r := seq(|p|, i requires 0 <= i < |p| => p[|p| - 1 - i]);
    assert IsWalk(adj, r) by {
      forall i | 0 <= i < |r| - 1
        ensures Step(adj, r[i], r[i + 1])
      {
        var j := |p| - 2 - i;
        assert r[i] == p[j + 1] && r[i + 1] == p[j];
      }
    }
    assert r[0] == s && r[|r| - 1] == p[0];
  }

  /**
    The predecessor walk as written: while the current cell has a predecessor,
    move to it, mark it as path and redraw. Every cell after the first on the
    chain (the start cell included) ends up marked, nothing else changes, and
    there is one redraw per step. Each search follows it by showing the end and
    then the start cell with their own markers again.
   */
  method MarkPath(cf: Predecessors, end: Cell, colors: Colors) returns (painted: Colors, draws: nat)
    requires Terminates(cf, end)
    requires forall i :: 0 <= i < |Trace(cf, end)| ==> Trace(cf, end)[i] in colors
    ensures var p := Trace(cf, end);
      && draws == |p| - 1
      && painted.Keys == colors.Keys
      && (forall i :: 1 <= i < |p| ==> painted[p[i]] == Path)
      && (forall c :: c in colors && c !in p[1..] ==> painted[c] == colors[c])
  {
    ghost var p := Trace(cf, end);
    ghost var marked: set<Cell> := {};
    var current := end;
    painted := colors;
    draws := 0;
    while current in cf
      invariant 0 <= draws < |p| && current == p[draws]
      invariant painted.Keys == colors.Keys
      invariant forall i :: 1 <= i <= draws ==> painted[p[i]] == Path
      invariant forall c :: c in marked ==> c in p[1..]
      invariant forall c :: c in colors && c !in marked ==> painted[c] == colors[c]
      decreases |p| - draws
    {
      current := cf[current];
      painted := painted[current := Path];
      draws := draws + 1;
      assert p[1..][draws - 1] == current;
      marked := marked + {current};
    }
  }

  /**
    The reconstruction every search runs on success: mark the chain back from
    `t`, show `t` as End, then `s` as Start. On a duplicate-free chain from `t`
    back to `s`, after an exploration of `before`, the grid shows the route.
   */
  method Reconstruct(cf: Predecessors, s: Cell, t: Cell, ghost before: Colors, explored: Colors)
    returns (painted: Colors, draws: nat)
    requires Explored(before, explored)
    requires Terminates(cf, t) && Last(Trace(cf, t)) == s && NoDuplicates(Trace(cf, t))
    requires var p := Trace(cf, t); forall i :: 0 <= i < |p| ==> p[i] in explored
    ensures draws == |Trace(cf, t)| - 1
    ensures RouteShown(before, painted, Trace(cf, t), s, t)
  {
    painted, draws := MarkPath(cf, t, explored);
    ReconstructShowsRoute(before, explored, painted, Trace(cf, t), s, t);
    painted := painted[t := End][s := Start];
  }

  /**
    When the chain is duplicate-free and runs from `t` back to `s`, marking it
    after an exploration and then restoring the end and start markers leaves
    the grid showing the route.
   */
  lemma ReconstructShowsRoute(before: Colors, explored: Colors, marked: Colors, p: seq<Cell>, s: Cell, t: Cell)
    requires Explored(before, explored)
    requires |p| > 0 && p[0] == t && Last(p) == s && NoDuplicates(p)
    requires s in explored && forall i :: 0 <= i < |p| ==> p[i] in explored
    requires marked.Keys == explored.Keys
    requires forall i :: 1 <= i < |p| ==> marked[p[i]] == Path
    requires forall c :: c in explored && c !in p[1..] ==> marked[c] == explored[c]
    ensures RouteShown(before, marked[t := End][s := Start], p, s, t)
  {
    var after := marked[t := End][s := Start];
    assert after.Keys == before.Keys;
    assert forall i :: 0 <= i < |p| ==> p[i] in after;
    RouteInterior(marked, p, s, t);
    RouteElsewhere(before, explored, marked, p, s, t);
  }

  /** Restoring the markers does not touch the cells strictly inside the route. */
  lemma RouteInterior(marked: Colors, p: seq<Cell>, s: Cell, t: Cell)
    requires |p| > 0 && p[0] == t && Last(p) == s && NoDuplicates(p)
    requires forall i :: 1 <= i < |p| ==> p[i] in marked && marked[p[i]] == Path
    ensures forall i :: 0 < i < |p| - 1 ==> marked[t := End][s := Start][p[i]] == Path
  {
    forall i | 0 < i < |p| - 1
      ensures marked[t := End][s := Start][p[i]] == Path
    {
      assert p[i] != p[0] && p[i] != p[|p| - 1];
    }
  }

  /** Off the route, the grid shows only what the exploration left. */
  lemma RouteElsewhere(before: Colors, explored: Colors, marked: Colors, p: seq<Cell>, s: Cell, t: Cell)
    requires Explored(before, explored)
    requires |p| > 0 && p[0] == t && Last(p) == s && marked.Keys == explored.Keys
    requires forall c :: c in explored && c !in p[1..] ==> marked[c] == explored[c]
    ensures forall c :: c in before && c !in p ==>
      marked[t := End][s := Start][c] == before[c] || marked[t := End][s := Start][c] == Open ||
      marked[t := End][s := Start][c] == Closed
  {
    assert s in p && t in p;
  }
}
