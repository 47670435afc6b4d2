// The priority queue of the weighted searches, as a sequence of cells ordered by insertion.

module Queues {
  import opened Common
  import opened Cells


  /** The index of the first occurrence of `x` in `q`, or `|q|` when there is none. */
  function Find(q: seq<Cell>, x: Cell): (i: nat)
    ensures i <= |q| && (i < |q| ==> q[i] == x) && forall j :: 0 <= j < i ==> q[j] != x
  {
    if q == [] then 0
    else if q[0] == x then 0
    else 1 + Find(q[1..], x)
  }

  /** `PriorityQueue.remove(o)`: drops the first occurrence of `x`, if any. */
  function Remove(q: seq<Cell>, x: Cell): (r: seq<Cell>)
    ensures x !in q ==> r == q
  {
    var i := Find(q, x);
    if i == |q| then q else q[..i] + q[i + 1..]
  }

  /** Removing from a queue without repeats leaves one without repeats, less that cell. */
  lemma RemoveDistinct(q: seq<Cell>, x: Cell)
    requires Distinct(q)
    ensures Distinct(Remove(q, x)) && Elems(Remove(q, x)) == Elems(q) - {x}
  {
    var i := Find(q, x);
    if i < |q| {
      DropDistinct(q, i);
    }
  }

  /** The `remove` then `add` that re-queues a cell whose priority changed: afterwards the cell is
      queued exactly once. */
  lemma Requeue(q: seq<Cell>, x: Cell)
    requires Distinct(q)
    ensures Distinct(Remove(q, x) + [x]) && Elems(Remove(q, x) + [x]) == Elems(q) + {x}
  {
    RemoveDistinct(q, x);
    var r := Remove(q, x) + [x];
    forall i, j | 0 <= i < j < |r|
      ensures r[i] != r[j]
    {
      assert r[i] in Elems(Remove(q, x));
    }
  }

  /** The index of the first queued cell whose `fCost` is least under `compareTo`. */
  function LeastIndex(pq: seq<Cell>): (m: nat)
    requires pq != []
    reads Elems(pq)`fCost
    ensures m < |pq| && forall j :: 0 <= j < |pq| ==> pq[j].CompareTo(pq[m]) >= 0
    ensures forall j :: 0 <= j < m ==> pq[j].CompareTo(pq[m]) > 0
  {
    if |pq| == 1 then 0
    else
      var k := LeastIndex(pq[..|pq| - 1]);
      assert pq[k] == pq[..|pq| - 1][k];
      if pq[|pq| - 1].CompareTo(pq[k]) < 0 then |pq| - 1 else k
  }

  /** `PriorityQueue.poll()`: removes a queued cell whose `fCost` is least under `compareTo`.
      Which of several such cells the heap yields is not modelled: this one takes the first. */
  function Poll(pq: seq<Cell>): (r: (Cell, seq<Cell>))
    requires pq != []
    reads Elems(pq)`fCost
    ensures r.0 in pq && forall y :: y in pq ==> y.CompareTo(r.0) >= 0
    ensures |r.1| == |pq| - 1
    ensures multiset(r.1) == multiset(pq) - multiset{r.0}
    ensures Distinct(pq) ==> Distinct(r.1) && Elems(r.1) == Elems(pq) - {r.0}
  {
    var m := LeastIndex(pq);
    var rest := pq[..m] + pq[m + 1..];
    assert pq == pq[..m] + [pq[m]] + pq[m + 1..];
    assert Distinct(pq) ==> Distinct(rest) && Elems(rest) == Elems(pq) - {pq[m]} by {
      if Distinct(pq) { DropDistinct(pq, m); }
    }
    (pq[m], rest)
  }

  lemma DropDistinct(q: seq<Cell>, m: nat)
    requires m < |q| && Distinct(q)
    ensures Distinct(q[..m] + q[m + 1..]) && Elems(q[..m] + q[m + 1..]) == Elems(q) - {q[m]}
  {
    var r := q[..m] + q[m + 1..];
    assert forall i :: 0 <= i < |r| ==> r[i] == if i < m then q[i] else q[i + 1];
    forall x | x in q && x != q[m]
      ensures x in r
    {
      var j :| 0 <= j < |q| && q[j] == x;
      assert r[if j < m then j else j - 1] == x;
    }
  }
}
