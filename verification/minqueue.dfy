/**
  The priority queues of `dijkstra`, `ucs` and `astar`: a bag of entries
  ordered by key and then by a tie-break number, from which `get` removes some
  least entry. Which of several equally least entries comes out is left open.
 */
module MinQueue {
  import opened Grid

  /** A queue entry: a cost key, a tie-break number and the cell it schedules. */
  datatype Entry = Entry(key: nat, tie: nat, cell: Cell)

  /** `a` does not come after `b`: smaller key, or equal key and no larger tie-break number. */
  predicate NotAfter(a: Entry, b: Entry) {
    a.key < b.key || (a.key == b.key && a.tie <= b.tie)
  }

  /** `q[i]` is a least entry of `q`. */
  predicate IsMin(q: seq<Entry>, i: int) {
    0 <= i < |q| && forall j :: 0 <= j < |q| ==> NotAfter(q[i], q[j])
  }

  /** `q` without its `i`-th entry. */
  function Remove(q: seq<Entry>, i: nat): (r: seq<Entry>)
    requires i < |q|
    ensures |r| == |q| - 1
    ensures forall j :: 0 <= j < i ==> r[j] == q[j]
    ensures forall j :: i <= j < |r| ==> r[j] == q[j + 1]
  {
    q[..i] + q[i + 1..]
  }

  /** Removing one entry leaves the same bag minus that entry. */
  lemma RemoveMultiset(q: seq<Entry>, i: nat)
    requires i < |q|
    ensures multiset(Remove(q, i)) == multiset(q) - multiset{q[i]}
  {
    assert q == q[..i] + [q[i]] + q[i + 1..];
  }

  /** Every entry other than the removed one is still there. */
  lemma RemoveKeeps(q: seq<Entry>, i: nat, e: Entry)
    requires i < |q| && e in q && e != q[i]
    ensures e in Remove(q, i)
  {
    var j :| 0 <= j < |q| && q[j] == e;
    if j < i {
      assert Remove(q, i)[j] == e;
    } else {
      assert Remove(q, i)[j - 1] == e;
    }
  }

  /** Removing an entry keeps tie-break numbers strictly increasing along the queue. */
  lemma RemoveIncreasing(q: seq<Entry>, i: nat)
    requires i < |q| && forall a, b :: 0 <= a < b < |q| ==> q[a].tie < q[b].tie
    ensures var r := Remove(q, i); forall a, b :: 0 <= a < b < |r| ==> r[a].tie < r[b].tie
  {
    var r := Remove(q, i);
    forall a, b | 0 <= a < b < |r|
      ensures r[a].tie < r[b].tie
    {
      var a', b' := if a < i then a else a + 1, if b < i then b else b + 1;
      assert r[a] == q[a'] && r[b] == q[b'];
    }
  }

  /** `get`: scans for a least entry and takes it out. */
  method ExtractMin(q: seq<Entry>) returns (e: Entry, rest: seq<Entry>, i: nat)
    requires |q| > 0
    ensures IsMin(q, i) && e == q[i] && rest == Remove(q, i)
  {
    var best := 0;
    var j := 1;
    while j < |q|
      invariant 0 <= best < |q| && 1 <= j <= |q|
      invariant forall m :: 0 <= m < j ==> NotAfter(q[best], q[m])
    {
      if !NotAfter(q[best], q[j]) {
        best := j;
      }
      j := j + 1;
    }
    e, rest, i := q[best], Remove(q, best), best;
  }

  /** The cells the entries of `q` schedule, in queue order. */
  function Cells(q: seq<Entry>): seq<Cell> {
    seq(|q|, i requires 0 <= i < |q| => q[i].cell)
  }

  /** Removing an entry removes its cell from the same place. */
  lemma CellsRemove(q: seq<Entry>, i: nat)
    requires i < |q|
    ensures Cells(Remove(q, i)) == Cells(q)[..i] + Cells(q)[i + 1..]
  {
  }

  /** Appending an entry appends its cell. */
  lemma CellsAppend(q: seq<Entry>, e: Entry)
    ensures Cells(q + [e]) == Cells(q) + [e.cell]
  {
  }

  /** With pairwise distinct tie-break numbers, the least entry is unique. */
  lemma UniqueMin(q: seq<Entry>, i: int, j: int)
    requires forall a, b :: 0 <= a < b < |q| ==> q[a].tie != q[b].tie
    requires IsMin(q, i) && IsMin(q, j)
    ensures i == j
  {
    assert NotAfter(q[i], q[j]) && NotAfter(q[j], q[i]);
  }
}
