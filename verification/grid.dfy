/**
  The grid the searches run on: cells, their display states, the neighbour
  lists that the grid computes before a run, and walks through those lists.
 */
module Grid {

  /** A grid square, identified by its (row, col) position. */
  datatype Cell = Cell(row: int, col: int)

  /** What a cell shows; the searches write Open, Closed, Path, Start and End. */
  datatype State = Free | Barrier | Start | End | Open | Closed | Path

  /** Each grid cell mapped to its ordered list of neighbours. */
  type Adjacency = map<Cell, seq<Cell>>

  /** Each grid cell mapped to its current state. */
  type Colors = map<Cell, State>

  /** `a` and `b` are one row or one column apart, and agree on the other coordinate. */
  predicate Orthogonal(a: Cell, b: Cell) {
    || (a.row == b.row && (a.col == b.col + 1 || b.col == a.col + 1))
    || (a.col == b.col && (a.row == b.row + 1 || b.row == a.row + 1))
  }

  /** `b` is listed among the neighbours of grid cell `a`. */
  predicate Step(adj: Adjacency, a: Cell, b: Cell) {
    a in adj && b in adj[a]
  }

  /**
    The neighbour lists are fresh: every listed neighbour is a grid cell,
    orthogonally adjacent, and not a barrier.
   */
  ghost predicate WellFormed(adj: Adjacency, colors: Colors) {
    && adj.Keys == colors.Keys
    && forall a, b :: Step(adj, a, b) ==> b in adj && Orthogonal(a, b) && colors[b] != Barrier
  }

  /** Every state change from `before` to `after` opened or closed a cell. */
  predicate Explored(before: Colors, after: Colors) {
    && after.Keys == before.Keys
    && forall c :: c in before ==> after[c] == before[c] || after[c] == Open || after[c] == Closed
  }

  /** No cell occurs twice in `p`. */
  predicate NoDuplicates(p: seq<Cell>) {
    forall i, j :: 0 <= i < j < |p| ==> p[i] != p[j]
  }

  function Last(p: seq<Cell>): (r: Cell)
    requires |p| > 0
  {
    p[|p| - 1]
  }

  /** A walk: consecutive cells are neighbour steps. */
  ghost predicate IsWalk(adj: Adjacency, p: seq<Cell>) {
    && |p| > 0
    && forall i :: 0 <= i < |p| - 1 ==> Step(adj, p[i], p[i + 1])
  }

  /** `t` can be reached from `s` in at most `k` steps. */
  ghost predicate Within(adj: Adjacency, s: Cell, t: Cell, k: int) {
    exists p {:trigger IsWalk(adj, p)} :: IsWalk(adj, p) && p[0] == s && p[|p| - 1] == t && |p| <= k + 1
  }

  /** `t` can be reached from `s` at all. */
  ghost predicate Reachable(adj: Adjacency, s: Cell, t: Cell) {
    exists p {:trigger IsWalk(adj, p)} :: IsWalk(adj, p) && p[0] == s && p[|p| - 1] == t
  }

  /** The fewest steps from `s` to `t` is exactly `n`. */
  ghost predicate IsDistance(adj: Adjacency, s: Cell, t: Cell, n: nat) {
    Within(adj, s, t, n) && !Within(adj, s, t, n - 1)
  }

  lemma ExploredTransitive(a: Colors, b: Colors, c: Colors)
    requires Explored(a, b) && Explored(b, c)
    ensures Explored(a, c)
  {
  }

  /** Opening and closing cells leaves every listed neighbour free of barriers. */
  lemma ExploredWellFormed(adj: Adjacency, before: Colors, after: Colors)
    requires WellFormed(adj, before) && Explored(before, after)
    ensures WellFormed(adj, after)
  {
  }

  /** Every neighbour listed for `u` is in `S`. */
  ghost predicate Expanded(adj: Adjacency, S: set<Cell>, u: Cell) {
    forall n :: Step(adj, u, n) ==> n in S
  }

  /** Once every neighbour listed for `u` is in `S`, `u` is expanded into `S`. */
  lemma ListedExpanded(adj: Adjacency, S: set<Cell>, u: Cell)
    requires u in adj && forall j :: 0 <= j < |adj[u]| ==> adj[u][j] in S
    ensures Expanded(adj, S, u)
  {
    forall n | Step(adj, u, n)
      ensures n in S
    {
      var j :| 0 <= j < |adj[u]| && adj[u][j] == n;
    }
  }

  /** The first `i` neighbours stay in a growing set, and the `i`-th has just joined it. */
  lemma StillIn(before: set<Cell>, after: set<Cell>, neighbors: seq<Cell>, i: nat)
    requires i < |neighbors| && before <= after && neighbors[i] in after
    requires forall j :: 0 <= j < i ==> neighbors[j] in before
    ensures forall j :: 0 <= j <= i ==> neighbors[j] in after
  {
  }

  /** No step leaves `S`. */
  ghost predicate StepClosed(adj: Adjacency, S: set<Cell>) {
    forall a, b :: a in S && Step(adj, a, b) ==> b in S
  }

  lemma WithinIsReachable(adj: Adjacency, s: Cell, t: Cell, k: int)
    requires Within(adj, s, t, k)
    ensures Reachable(adj, s, t)
  {
  }

  lemma WithinMonotone(adj: Adjacency, s: Cell, t: Cell, j: int, k: int)
    requires j <= k && Within(adj, s, t, j)
    ensures Within(adj, s, t, k)
  {
  }

  /** One more step extends a walk by one. */
  lemma WithinExtend(adj: Adjacency, s: Cell, u: Cell, w: Cell, k: int)
    requires Within(adj, s, u, k) && Step(adj, u, w)
    ensures Within(adj, s, w, k + 1)
  {
    var p :| IsWalk(adj, p) && p[0] == s && p[|p| - 1] == u && |p| <= k + 1;
    var q := p + [w];
    assert IsWalk(adj, q);
  }

  /** A walk of at most `k + 1` steps is shorter or ends with a step from a cell within `k`. */
  lemma WithinSplit(adj: Adjacency, s: Cell, w: Cell, k: int) returns (u: Cell)
    requires k >= 0 && Within(adj, s, w, k + 1)
    ensures Within(adj, s, w, k) || (Within(adj, s, u, k) && Step(adj, u, w))
  {
    var p :| IsWalk(adj, p) && p[0] == s && p[|p| - 1] == w && |p| <= k + 2;
    u := w;
    if |p| == k + 2 {
      var q := p[..|p| - 1];
      assert IsWalk(adj, q);
      u := q[|q| - 1];
      assert Step(adj, p[|p| - 2], p[|p| - 1]);
      assert Within(adj, s, u, k) by {
        assert q[0] == s && q[|q| - 1] == u && |q| <= k + 1;
      }
    } else {
      assert |p| <= k + 1;
    }
  }

  /** A set that contains `s` and that no step leaves contains everything `s` reaches. */
  lemma ClosedContainsReachable(adj: Adjacency, S: set<Cell>, s: Cell, t: Cell)
    requires s in S && StepClosed(adj, S) && Reachable(adj, s, t)
    ensures t in S
  {
    var p :| IsWalk(adj, p) && p[0] == s && p[|p| - 1] == t;
    var i := 0;
    while i < |p| - 1
      invariant 0 <= i < |p| && p[i] in S
    {
      assert Step(adj, p[i], p[i + 1]);
      i := i + 1;
    }
  }

  /** The cells occurring in `p`. */
  ghost function Elements(p: seq<Cell>): (r: set<Cell>) {
    if |p| == 0 then {} else Elements(p[..|p| - 1]) + {p[|p| - 1]}
  }

  lemma ElementsAppend(p: seq<Cell>, c: Cell)
    ensures Elements(p + [c]) == Elements(p) + {c}
  {
    assert (p + [c])[..|p|] == p;
  }

  /** Every cell of `p` is among its elements. */
  lemma {:induction false} ElementsContain(p: seq<Cell>)
    ensures forall i :: 0 <= i < |p| ==> p[i] in Elements(p)
  {
    if |p| > 0 {
      var q := p[..|p| - 1];
      ElementsContain(q);
      assert forall i :: 0 <= i < |q| ==> p[i] == q[i];
    }
  }

  /** Where an element occurs. */
  lemma {:induction false} ElementsIndex(p: seq<Cell>, c: Cell) returns (i: nat)
    requires c in Elements(p)
    ensures i < |p| && p[i] == c
  {
    if p[|p| - 1] == c {
      i := |p| - 1;
    } else {
      i := ElementsIndex(p[..|p| - 1], c);
    }
  }

  /** Dropping one cell keeps a duplicate-free sequence duplicate-free. */
  lemma NoDuplicatesRemove(p: seq<Cell>, i: nat)
    requires i < |p| && NoDuplicates(p)
    ensures NoDuplicates(p[..i] + p[i + 1..])
  {
    var r := p[..i] + p[i + 1..];
    forall a, b | 0 <= a < b < |r|
      ensures r[a] != r[b]
    {
      var a', b' := if a < i then a else a + 1, if b < i then b else b + 1;
      assert r[a] == p[a'] && r[b] == p[b'];
    }
  }

  /** Cutting one occurrence out of a duplicate-free sequence removes exactly that cell. */
  lemma {:induction false} ElementsRemove(p: seq<Cell>, i: nat)
    requires i < |p| && NoDuplicates(p)
    ensures Elements(p[..i] + p[i + 1..]) == Elements(p) - {p[i]}
  {
    var r := p[..i] + p[i + 1..];
    ElementsContain(p);
    ElementsContain(r);
    forall c | c in Elements(r)
      ensures c in Elements(p) - {p[i]}
    {
      var k := ElementsIndex(r, c);
      if k < i {
        assert c == p[k];
      } else {
        assert c == p[k + 1];
      }
    }
    forall c | c in Elements(p) - {p[i]}
      ensures c in Elements(r)
    {
      var k := ElementsIndex(p, c);
      if k < i {
        assert r[k] == c;
      } else {
        assert r[k - 1] == c;
      }
    }
  }

  /** A subset of a finite set is no larger. */
  lemma SubsetCardinality<T>(A: set<T>, B: set<T>)
    requires A <= B
    ensures |A| <= |B|
  {
    if A != {} {
      var x :| x in A;
      SubsetCardinality(A - {x}, B - {x});
    }
  }
}
