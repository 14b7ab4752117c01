/** The binary heap of `heapq`, seen through the pairs it holds. */
module MinHeap {

  /** The tuple order `heapq` compares `(distance, vertex)` pairs by. */
  predicate PairLeq(p: (int, int), q: (int, int))
  {
    p.0 < q.0 || (p.0 == q.0 && p.1 <= q.1)
  }

  /**
   * Where `heapq.heappop` finds its result: a position of a least pair. The pair it returns
   * is determined by the queue's contents; the heap's internal layout is not modelled.
   */
  function MinIndex(pq: seq<(int, int)>): (k: nat)
    requires pq != []
    ensures k < |pq|
    ensures forall i :: 0 <= i < |pq| ==> PairLeq(pq[k], pq[i])
  {
    if |pq| == 1 then 0
    else
      var k := MinIndex(pq[1..]);
      if PairLeq(pq[0], pq[k + 1]) then 0 else k + 1
  }

  /** The queue without the entry at position `k`. */
  function RemoveAt(pq: seq<(int, int)>, k: nat): (r: seq<(int, int)>)
    requires k < |pq|
    ensures |r| == |pq| - 1
    ensures multiset(r) == multiset(pq) - multiset{pq[k]}
  {
    assert pq == pq[..k] + [pq[k]] + pq[k + 1..];
    pq[..k] + pq[k + 1..]
  }
}
