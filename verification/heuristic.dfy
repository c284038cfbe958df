/** The Manhattan-distance heuristic that A* uses to estimate the remaining cost. */
module Heuristic {
  import opened Grid

  function Abs(x: int): (r: nat) {
    if x < 0 then -x else x
  }

  /** Rows apart plus columns apart. */
  function ManhattanDistance(p1: Cell, p2: Cell): (r: nat)
    ensures r == 0 <==> p1 == p2
    ensures r >= Abs(p1.row - p2.row) && r >= Abs(p1.col - p2.col)
  {
    Abs(p1.row - p2.row) + Abs(p1.col - p2.col)
  }

  lemma ManhattanSymmetric(p1: Cell, p2: Cell)
    ensures ManhattanDistance(p1, p2) == ManhattanDistance(p2, p1)
  {
  }

  /** One orthogonal step changes the estimate by exactly one: the heuristic is consistent. */
  lemma ManhattanUnitStep(a: Cell, b: Cell, t: Cell)
    requires Orthogonal(a, b)
    ensures ManhattanDistance(a, t) <= ManhattanDistance(b, t) + 1
    ensures ManhattanDistance(b, t) <= ManhattanDistance(a, t) + 1
    ensures ManhattanDistance(a, t) != ManhattanDistance(b, t)
  {
  }

  lemma ManhattanTriangle(a: Cell, b: Cell, c: Cell)
    ensures ManhattanDistance(a, c) <= ManhattanDistance(a, b) + ManhattanDistance(b, c)
  {
  }

  /**
    On fresh neighbour lists no walk is shorter than the Manhattan distance
    between its ends: the heuristic never overestimates.
   */
  lemma {:induction false} ManhattanAdmissible(adj: Adjacency, colors: Colors, p: seq<Cell>)
    requires WellFormed(adj, colors) && IsWalk(adj, p)
    ensures ManhattanDistance(p[0], p[|p| - 1]) <= |p| - 1
  {
    if |p| > 1 {
      var q := p[1..];
      assert IsWalk(adj, q) by {
        forall i | 0 <= i < |q| - 1
          ensures Step(adj, q[i], q[i + 1])
        {
          assert Step(adj, p[i + 1], p[i + 2]);
        }
      }
      ManhattanAdmissible(adj, colors, q);
      assert Step(adj, p[0], p[1]);
      ManhattanUnitStep(p[0], p[1], p[|p| - 1]);
    }
  }

  /** Hence the estimate is a lower bound on the true distance. */
  lemma ManhattanBelowDistance(adj: Adjacency, colors: Colors, s: Cell, t: Cell, n: nat)
    requires WellFormed(adj, colors) && Within(adj, s, t, n)
    ensures ManhattanDistance(s, t) <= n
  {
    var p :| IsWalk(adj, p) && p[0] == s && p[|p| - 1] == t && |p| <= n + 1;
    ManhattanAdmissible(adj, colors, p);
  }
}
