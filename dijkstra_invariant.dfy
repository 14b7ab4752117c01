/**
 * The invariant of the search in src/dijkstra.py, in parts, and one lemma per step of the
 * search showing that the step keeps it.
 */
module DijkstraInvariant {
  import opened Distance
  import opened Adjacency
  import opened Walks
  import opened SimpleGraph
  import opened MinHeap

  /** Every stored weight is at least zero. */
  ghost predicate NonNegative(a: Adj)
  {
    forall e :: HasEdge(a, e) ==> e.weight >= 0
  }

  /*
   * What holds between the steps of the search, in six parts. `done` holds the vertices
   * whose queue entry has been popped at their final distance, none further than `lo`, the
   * distance popped last; every finite vertex not yet done has exactly one queue entry at
   * its current distance. `rank` orders the done vertices by the time they were done, `via`
   * is the weight of the edge that set each distance, and `paths` holds a walk of that weight.
   */

  /** The keys of both maps, and the source's entries. */
  ghost predicate Keys(vs: set<int>, source: int, dist: map<int, Dist>, parent: map<int, Option<int>>)
  {
    && dist.Keys == vs + {source} && parent.Keys == vs
    && dist[source] == Fin(0) && (source in parent ==> parent[source] == None)
  }

  /** Every queue entry names a finite vertex, at or above its distance and at or above `lo`. */
  ghost predicate Queued(dist: map<int, Dist>, pq: seq<(int, int)>, lo: int)
  {
    && 0 <= lo
    && forall e :: e in pq ==> e.1 in dist && dist[e.1].Fin? && dist[e.1].val <= e.0 && lo <= e.0
  }

  /** Done vertices are finite, no further than `lo`, and ranked below `count`. */
  ghost predicate Settled(dist: map<int, Dist>, done: set<int>, lo: int, rank: map<int, nat>, count: nat)
  {
    forall x :: x in done ==> x in dist && dist[x].Fin? && dist[x].val <= lo && x in rank && rank[x] < count
  }

  /** A finite vertex has one entry at its distance while it is not done, and none after. */
  ghost predicate Single(dist: map<int, Dist>, pq: seq<(int, int)>, done: set<int>)
  {
    forall x :: x in dist && dist[x].Fin? ==> multiset(pq)[(dist[x].val, x)] == if x in done then 0 else 1
  }

  /**
   * Every finite vertex but the source has a parent; a parent is done, the edge from it set
   * the child's distance, and a done child was done after its parent.
   */
  ghost predicate Parents(a: Adj, source: int, dist: map<int, Dist>, parent: map<int, Option<int>>,
                          done: set<int>, rank: map<int, nat>, via: map<int, int>)
  {
    && (forall v :: v in dist && v != source && dist[v].Fin? ==> v in parent && parent[v].Some?)
    && (forall v :: v in parent && parent[v].Some? ==>
          && v in dist && parent[v].value in dist && parent[v].value in done && v in via
          && dist[v].Fin? && dist[parent[v].value].Fin?
          && HasEdge(a, Edge(parent[v].value, v, via[v]))
          && dist[v].val == dist[parent[v].value].val + via[v]
          && (v in done ==> v in rank && parent[v].value in rank && rank[parent[v].value] < rank[v]))
  }

  /** No stored edge leaving a vertex of `s` can be relaxed. */
  ghost predicate Relaxed(a: Adj, dist: map<int, Dist>, s: set<int>)
  {
    forall e :: HasEdge(a, e) && e.from in s ==> e.from in dist && e.to in dist && !CanRelax(dist, e)
  }

  /** No entry among the first `i` of `u`'s list can be relaxed. */
  ghost predicate Scanned(dist: map<int, Dist>, u: int, nbrs: seq<Entry>, i: nat)
    requires u in dist && i <= |nbrs|
  {
    forall j :: 0 <= j < i ==> nbrs[j].target in dist && !CanRelax(dist, Edge(u, nbrs[j].target, nbrs[j].weight))
  }

  /** All parts of the invariant of the outer loop. */
  ghost predicate Inv(a: Adj, source: int, vs: set<int>, dist: map<int, Dist>,
                      parent: map<int, Option<int>>, pq: seq<(int, int)>, done: set<int>,
                      lo: int, rank: map<int, nat>, count: nat, via: map<int, int>,
                      paths: map<int, seq<Edge>>)
  {
    && Keys(vs, source, dist, parent) && Queued(dist, pq, lo)
    && Settled(dist, done, lo, rank, count) && Single(dist, pq, done)
    && Parents(a, source, dist, parent, done, rank, via) && Walked(a, source, dist, paths)
    && Relaxed(a, dist, done)
  }

  /** Lowering the distance of `v` keeps unrelaxable an edge that does not leave `v`. */
  lemma LowerKeeps(dist: map<int, Dist>, e: Edge, v: int, nd: int)
    requires e.from in dist && e.to in dist && !CanRelax(dist, e)
    requires v in dist && Below(Fin(nd), dist[v]) && e.from != v
    ensures !CanRelax(dist[v := Fin(nd)], e)
  {
  }

  /** Lowering the distance of a vertex other than `u` keeps `u`'s scanned entries unrelaxable. */
  lemma RelaxScanned(dist: map<int, Dist>, u: int, nbrs: seq<Entry>, i: nat, v: int, nd: int)
    requires u in dist && i <= |nbrs| && Scanned(dist, u, nbrs, i)
    requires v in dist && Below(Fin(nd), dist[v]) && u != v
    ensures Scanned(dist[v := Fin(nd)], u, nbrs, i)
  {
    forall j | 0 <= j < i
      ensures !CanRelax(dist[v := Fin(nd)], Edge(u, nbrs[j].target, nbrs[j].weight))
    {
      LowerKeeps(dist, Edge(u, nbrs[j].target, nbrs[j].weight), v, nd);
    }
  }

  /** One more entry of `u`'s list is unrelaxable. */
  lemma ScanOne(dist: map<int, Dist>, u: int, nbrs: seq<Entry>, i: nat)
    requires u in dist && i < |nbrs| && Scanned(dist, u, nbrs, i)
    requires nbrs[i].target in dist && !CanRelax(dist, Edge(u, nbrs[i].target, nbrs[i].weight))
    ensures Scanned(dist, u, nbrs, i + 1)
  {
  }

  /** The state before the first step. */
  lemma InitStep(a: Adj, source: int, vs: set<int>)
    ensures Keys(vs, source, (map v | v in vs :: Inf)[source := Fin(0)], map v | v in vs :: None)
    ensures Queued((map v | v in vs :: Inf)[source := Fin(0)], [(0, source)], 0)
    ensures Settled((map v | v in vs :: Inf)[source := Fin(0)], {}, 0, map[], 0)
    ensures Single((map v | v in vs :: Inf)[source := Fin(0)], [(0, source)], {})
    ensures Parents(a, source, (map v | v in vs :: Inf)[source := Fin(0)], map v | v in vs :: None, {}, map[], map[])
    ensures Walked(a, source, (map v | v in vs :: Inf)[source := Fin(0)], map[source := []])
  {
    assert IsWalk(a, [], source, source);
    var dist := (map v | v in vs :: Inf)[source := Fin(0)];
    assert multiset([(0, source)])[(0, source)] == 1;
    forall x | x in dist && dist[x].Fin?
      ensures x == source
    {
    }
  }

  /** The entries of the queue after a pop are entries of the queue before it. */
  lemma RemoveAtIn(pq: seq<(int, int)>, k: nat, e: (int, int))
    requires k < |pq| && e in RemoveAt(pq, k)
    ensures e in pq
  {
    assert multiset(RemoveAt(pq, k))[e] > 0;
  }

  /** Popping an entry above its vertex's current distance changes nothing else. */
  lemma StaleStep(a: Adj, source: int, vs: set<int>, dist: map<int, Dist>,
                  parent: map<int, Option<int>>, pq: seq<(int, int)>, done: set<int>,
                  lo: int, rank: map<int, nat>, count: nat, via: map<int, int>,
                  paths: map<int, seq<Edge>>, k: nat, d: int, u: int)
    requires Inv(a, source, vs, dist, parent, pq, done, lo, rank, count, via, paths)
    requires k < |pq| && pq[k] == (d, u) && u in dist && Below(dist[u], Fin(d))
    ensures Inv(a, source, vs, dist, parent, RemoveAt(pq, k), done, lo, rank, count, via, paths)
  {
    forall e | e in RemoveAt(pq, k)
      ensures e in pq
    {
      RemoveAtIn(pq, k, e);
    }
  }

  /** Popping the least entry at its vertex's distance: the queue rises to the new `lo`. */
  lemma SettleQueued(dist: map<int, Dist>, pq: seq<(int, int)>, lo: int, k: nat)
    requires Queued(dist, pq, lo)
    requires k < |pq| && forall i :: 0 <= i < |pq| ==> PairLeq(pq[k], pq[i])
    requires !Below(dist[pq[k].1], Fin(pq[k].0))
    ensures dist[pq[k].1] == Fin(pq[k].0) && lo <= pq[k].0
    ensures Queued(dist, RemoveAt(pq, k), pq[k].0)
  {
    assert pq[k] in pq;
    forall e | e in RemoveAt(pq, k)
      ensures pq[k].0 <= e.0
    {
      RemoveAtIn(pq, k, e);
      var i :| 0 <= i < |pq| && pq[i] == e;
    }
  }

  /** The settled vertex was not done, and has no entry left at its distance. */
  lemma SettleSingle(dist: map<int, Dist>, pq: seq<(int, int)>, done: set<int>, k: nat)
    requires Single(dist, pq, done)
    requires k < |pq| && pq[k].1 in dist && dist[pq[k].1] == Fin(pq[k].0)
    ensures pq[k].1 !in done
    ensures Single(dist, RemoveAt(pq, k), done + {pq[k].1})
  {
    var u := pq[k].1;
    assert pq[k] in pq;
    assert (dist[u].val, u) == pq[k];
    assert multiset(pq)[(dist[u].val, u)] > 0;
    assert multiset(pq)[(dist[u].val, u)] == if u in done then 0 else 1;
  }

  /** The settled vertex takes the next rank, at the new `lo`. */
  lemma SettleSettled(dist: map<int, Dist>, done: set<int>, lo: int, rank: map<int, nat>, count: nat, u: int, d: int)
    requires Settled(dist, done, lo, rank, count)
    requires u in dist && dist[u] == Fin(d) && lo <= d
    ensures Settled(dist, done + {u}, d, rank[u := count], count + 1)
  {
  }

  /** The settled vertex's parent was done before it. */
  lemma SettleParents(a: Adj, source: int, dist: map<int, Dist>, parent: map<int, Option<int>>,
                      done: set<int>, lo: int, rank: map<int, nat>, count: nat, via: map<int, int>, u: int)
    requires Parents(a, source, dist, parent, done, rank, via) && Settled(dist, done, lo, rank, count)
    requires u !in done
    ensures Parents(a, source, dist, parent, done + {u}, rank[u := count], via)
  {
  }

  /** The settle step as a whole: every part of the invariant, at the new `lo`. */
  lemma Settle(a: Adj, source: int, vs: set<int>, dist: map<int, Dist>,
               parent: map<int, Option<int>>, pq: seq<(int, int)>, done: set<int>,
               lo: int, rank: map<int, nat>, count: nat, via: map<int, int>,
               paths: map<int, seq<Edge>>, k: nat, d: int, u: int)
    requires Inv(a, source, vs, dist, parent, pq, done, lo, rank, count, via, paths)
    requires k < |pq| && pq[k] == (d, u) && forall i :: 0 <= i < |pq| ==> PairLeq(pq[k], pq[i])
    requires !Below(dist[u], Fin(d))
    ensures u in vs + {source} && u !in done
    ensures Scanning(a, source, vs, u, d, Neighbors(a, u), 0, dist, parent, RemoveAt(pq, k),
                     done + {u}, rank[u := count], count + 1, via, paths)
  {
    SettleQueued(dist, pq, lo, k);
    SettleSingle(dist, pq, done, k);
    SettleSettled(dist, done, lo, rank, count, u, d);
    SettleParents(a, source, dist, parent, done, lo, rank, count, via, u);
    assert (done + {u}) - {u} == done;
  }

  /** Relaxing `(u, v, w)` keeps the keys, and never touches the source. */
  lemma RelaxKeys(vs: set<int>, source: int, dist: map<int, Dist>, parent: map<int, Option<int>>,
                  u: int, v: int, nd: int)
    requires Keys(vs, source, dist, parent)
    requires v in vs && Below(Fin(nd), dist[v]) && 0 <= nd
    ensures v != source
    ensures Keys(vs, source, dist[v := Fin(nd)], parent[v := Some(u)])
  {
  }

  /** The new entry sits at the new distance, at or above `lo`. */
  lemma RelaxQueued(dist: map<int, Dist>, pq: seq<(int, int)>, lo: int, v: int, nd: int)
    requires Queued(dist, pq, lo)
    requires v in dist && Below(Fin(nd), dist[v]) && lo <= nd
    ensures (nd, v) !in pq
    ensures Queued(dist[v := Fin(nd)], pq + [(nd, v)], lo)
  {
  }

  /** A relaxed vertex is never done. */
  lemma RelaxSettled(dist: map<int, Dist>, done: set<int>, lo: int, rank: map<int, nat>, count: nat, v: int, nd: int)
    requires Settled(dist, done, lo, rank, count)
    requires v in dist && Below(Fin(nd), dist[v]) && lo <= nd
    ensures v !in done
    ensures Settled(dist[v := Fin(nd)], done, lo, rank, count)
  {
  }

  /** The relaxed vertex's one entry is the new one. */
  lemma RelaxSingle(dist: map<int, Dist>, pq: seq<(int, int)>, done: set<int>, v: int, nd: int)
    requires Single(dist, pq, done)
    requires v in dist && v !in done && (nd, v) !in pq
    ensures Single(dist[v := Fin(nd)], pq + [(nd, v)], done)
  {
    var dist', pq' := dist[v := Fin(nd)], pq + [(nd, v)];
    forall x | x in dist' && dist'[x].Fin?
      ensures multiset(pq')[(dist'[x].val, x)] == if x in done then 0 else 1
    {
      if x != v {
        assert (dist'[x].val, x) != (nd, v);
      }
    }
  }

  /** The relaxed vertex's parent becomes the settled vertex `u`. */
  lemma RelaxParents(a: Adj, source: int, dist: map<int, Dist>, parent: map<int, Option<int>>,
                     done: set<int>, rank: map<int, nat>, via: map<int, int>, u: int, v: int, w: int, nd: int)
    requires Parents(a, source, dist, parent, done, rank, via)
    requires u in done && u in dist && dist[u].Fin? && HasEdge(a, Edge(u, v, w)) && nd == dist[u].val + w
    requires v in dist && v !in done && Below(Fin(nd), dist[v])
    ensures Parents(a, source, dist[v := Fin(nd)], parent[v := Some(u)], done, rank, via[v := w])
  {
  }

  /** The relaxed vertex's walk is the settled vertex's walk and the edge. */
  lemma RelaxWalked(a: Adj, source: int, dist: map<int, Dist>, paths: map<int, seq<Edge>>,
                    u: int, v: int, w: int, nd: int)
    requires Walked(a, source, dist, paths)
    requires u in dist && dist[u].Fin? && HasEdge(a, Edge(u, v, w)) && nd == dist[u].val + w
    ensures Walked(a, source, dist[v := Fin(nd)], paths[v := paths[u] + [Edge(u, v, w)]])
  {
    WalkExtend(a, paths[u], source, u, Edge(u, v, w));
  }
  /**
   * Relaxing an entry of the settled vertex `u` to the new distance `nd` of `v` keeps the
   * keys, the queue, the done vertices and the single entry per vertex.
   */
  lemma RelaxQueue(u: int, d: int, v: int, nd: int, dist: map<int, Dist>, parent: map<int, Option<int>>,
                   pq: seq<(int, int)>, source: int, vs: set<int>, done: set<int>, rank: map<int, nat>,
                   count: nat)
    requires Keys(vs, source, dist, parent) && Queued(dist, pq, d)
    requires Settled(dist, done, d, rank, count) && Single(dist, pq, done)
    requires v in vs && d <= nd && Below(Fin(nd), dist[v])
    ensures v !in done
    ensures Keys(vs, source, dist[v := Fin(nd)], parent[v := Some(u)])
    ensures Queued(dist[v := Fin(nd)], pq + [(nd, v)], d)
    ensures Settled(dist[v := Fin(nd)], done, d, rank, count)
    ensures Single(dist[v := Fin(nd)], pq + [(nd, v)], done)
  {
    RelaxKeys(vs, source, dist, parent, u, v, nd);
    RelaxQueued(dist, pq, d, v, nd);
    RelaxSettled(dist, done, d, rank, count, v, nd);
    RelaxSingle(dist, pq, done, v, nd);
  }

  /** Relaxing the entry `(v, w)` of the settled vertex `u` keeps the parents and the walks. */
  lemma RelaxTree(a: Adj, u: int, d: int, v: int, w: int, nd: int, dist: map<int, Dist>,
                  parent: map<int, Option<int>>, source: int, done: set<int>, rank: map<int, nat>,
                  via: map<int, int>, paths: map<int, seq<Edge>>)
    requires Parents(a, source, dist, parent, done, rank, via) && Walked(a, source, dist, paths)
    requires u in done && u in dist && dist[u] == Fin(d) && HasEdge(a, Edge(u, v, w)) && nd == d + w
    requires v in dist && v !in done && Below(Fin(nd), dist[v])
    ensures Parents(a, source, dist[v := Fin(nd)], parent[v := Some(u)], done, rank, via[v := w])
    ensures Walked(a, source, dist[v := Fin(nd)], paths[v := paths[u] + [Edge(u, v, w)]])
  {
    RelaxParents(a, source, dist, parent, done, rank, via, u, v, w, nd);
    RelaxWalked(a, source, dist, paths, u, v, w, nd);
  }

  /** Relaxing the entry `i`, `(v, w)`, of the settled vertex `u` keeps what has been relaxed so far. */
  lemma RelaxScan(a: Adj, u: int, d: int, nbrs: seq<Entry>, i: nat, v: int, w: int, nd: int,
                  dist: map<int, Dist>, done: set<int>)
    requires i < |nbrs| && nbrs[i] == Entry(v, w) && u in dist && dist[u] == Fin(d) && nd == d + w
    requires Relaxed(a, dist, done - {u}) && Scanned(dist, u, nbrs, i)
    requires v in dist && v != u && v !in done && Below(Fin(nd), dist[v])
    ensures dist[v := Fin(nd)][u] == Fin(d)
    ensures Relaxed(a, dist[v := Fin(nd)], done - {u}) && Scanned(dist[v := Fin(nd)], u, nbrs, i + 1)
  {
    forall e | HasEdge(a, e) && e.from in done - {u}
      ensures !CanRelax(dist[v := Fin(nd)], e)
    {
      LowerKeeps(dist, e, v, nd);
    }
    RelaxScanned(dist, u, nbrs, i, v, nd);
    ScanOne(dist[v := Fin(nd)], u, nbrs, i);
  }

  /** The invariant of the inner loop, after the first `i` entries of `u`'s list. */
  ghost predicate Scanning(a: Adj, source: int, vs: set<int>, u: int, d: int, nbrs: seq<Entry>, i: nat,
                           dist: map<int, Dist>, parent: map<int, Option<int>>, pq: seq<(int, int)>,
                           done: set<int>, rank: map<int, nat>, count: nat, via: map<int, int>,
                           paths: map<int, seq<Edge>>)
  {
    && Keys(vs, source, dist, parent) && Queued(dist, pq, d)
    && Settled(dist, done, d, rank, count) && Single(dist, pq, done)
    && Parents(a, source, dist, parent, done, rank, via) && Walked(a, source, dist, paths)
    && u in done && u in dist && dist[u] == Fin(d) && i <= |nbrs|
    && Relaxed(a, dist, done - {u}) && Scanned(dist, u, nbrs, i)
  }

  /**
   * Relaxing the entry `i`, `(v, w)`, of the settled vertex `u` to the new distance
   * `nd == d + w` keeps the inner invariant.
   */
  lemma RelaxEntry(a: Adj, source: int, vs: set<int>, u: int, d: int, nbrs: seq<Entry>, i: nat,
                   v: int, w: int, nd: int, dist: map<int, Dist>, parent: map<int, Option<int>>,
                   pq: seq<(int, int)>, done: set<int>, rank: map<int, nat>, count: nat,
                   via: map<int, int>, paths: map<int, seq<Edge>>)
    requires NonNegative(a) && (forall e :: HasEdge(a, e) ==> e.to in vs)
    requires nbrs == Neighbors(a, u) && i < |nbrs| && nbrs[i] == Entry(v, w) && nd == d + w
    requires Scanning(a, source, vs, u, d, nbrs, i, dist, parent, pq, done, rank, count, via, paths)
    requires v in dist && Below(Fin(nd), dist[v])
    ensures Scanning(a, source, vs, u, d, nbrs, i + 1, dist[v := Fin(nd)], parent[v := Some(u)],
                     pq + [(nd, v)], done, rank, count, via[v := w], paths[v := paths[u] + [Edge(u, v, w)]])
  {
    assert HasEdge(a, Edge(u, v, w));
    RelaxQueue(u, d, v, nd, dist, parent, pq, source, vs, done, rank, count);
    RelaxTree(a, u, d, v, w, nd, dist, parent, source, done, rank, via, paths);
    RelaxScan(a, u, d, nbrs, i, v, w, nd, dist, done);
  }

  /** An entry that does not lower its target's distance keeps the inner invariant as it is. */
  lemma SkipEntry(a: Adj, source: int, vs: set<int>, u: int, d: int, nbrs: seq<Entry>, i: nat,
                  dist: map<int, Dist>, parent: map<int, Option<int>>, pq: seq<(int, int)>,
                  done: set<int>, rank: map<int, nat>, count: nat, via: map<int, int>,
                  paths: map<int, seq<Edge>>)
    requires i < |nbrs|
    requires Scanning(a, source, vs, u, d, nbrs, i, dist, parent, pq, done, rank, count, via, paths)
    requires nbrs[i].target in dist && !Below(Fin(d + nbrs[i].weight), dist[nbrs[i].target])
    ensures Scanning(a, source, vs, u, d, nbrs, i + 1, dist, parent, pq, done, rank, count, via, paths)
  {
    ScanOne(dist, u, nbrs, i);
  }

  /** After the whole list is scanned, no edge leaving a done vertex can be relaxed. */
  lemma ScanDone(a: Adj, source: int, vs: set<int>, u: int, d: int, nbrs: seq<Entry>,
                 dist: map<int, Dist>, parent: map<int, Option<int>>, pq: seq<(int, int)>,
                 done: set<int>, rank: map<int, nat>, count: nat, via: map<int, int>,
                 paths: map<int, seq<Edge>>)
    requires nbrs == Neighbors(a, u)
    requires Scanning(a, source, vs, u, d, nbrs, |nbrs|, dist, parent, pq, done, rank, count, via, paths)
    ensures Inv(a, source, vs, dist, parent, pq, done, d, rank, count, via, paths)
  {
    forall e | HasEdge(a, e) && e.from == u
      ensures e.to in dist && !CanRelax(dist, e)
    {
      var j :| 0 <= j < |nbrs| && nbrs[j] == Entry(e.to, e.weight);
    }
  }

  /** With the queue empty, every finite vertex is done, so no edge can be relaxed. */
  lemma Finish(a: Adj, source: int, vs: set<int>, dist: map<int, Dist>,
               parent: map<int, Option<int>>, done: set<int>,
               lo: int, rank: map<int, nat>, count: nat, via: map<int, int>,
               paths: map<int, seq<Edge>>)
    requires forall e :: HasEdge(a, e) ==> e.from in vs && e.to in vs
    requires Keys(vs, source, dist, parent) && Single(dist, [], done)
    requires Parents(a, source, dist, parent, done, rank, via) && Walked(a, source, dist, paths)
    requires Relaxed(a, dist, done)
    ensures Feasible(a, dist) && Witnessed(a, source, dist)
    ensures forall v :: v in parent && dist[v] == Inf ==> parent[v] == None
    ensures Tight(a, dist, parent)
    ensures Acyclic(parent)
  {
    forall v | v in dist && dist[v].Fin?
      ensures v in done
    {
      var none: seq<(int, int)> := [];
      assert multiset(none)[(dist[v].val, v)] == 0;
    }
    assert Ranked(parent, rank);
    forall e | HasEdge(a, e)
      ensures e.from in dist && e.to in dist && !CanRelax(dist, e)
    {
      assert e.from in vs;
      assert e.to in vs;
    }
    forall v | v in parent && parent[v].Some?
      ensures exists w :: HasEdge(a, Edge(parent[v].value, v, w)) && dist[v].val == dist[parent[v].value].val + w
    {
      assert HasEdge(a, Edge(parent[v].value, v, via[v]));
    }
  }
}
