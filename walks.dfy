/**
 * Walks along stored edges, their weights, and what a distance map that no edge can
 * relax tells about them. Both shortest-path engines end in such a map.
 */
module Walks {
  import opened Distance
  import opened Adjacency

  /** `p` is a walk of stored edges from `s` to `t` (the empty walk stays at `s`). */
  ghost predicate IsWalk(a: Adj, p: seq<Edge>, s: int, t: int)
  {
    && (if p == [] then s == t else p[0].from == s && p[|p| - 1].to == t)
    && (forall i :: 0 <= i < |p| ==> HasEdge(a, p[i]))
    && (forall i :: 0 <= i < |p| - 1 ==> p[i].to == p[i + 1].from)
  }

  /** The total weight of a walk. */
  function Weight(p: seq<Edge>): int
  {
    if p == [] then 0 else Weight(p[..|p| - 1]) + p[|p| - 1].weight
  }

  ghost predicate Reachable(a: Adj, s: int, t: int)
  {
    exists p :: IsWalk(a, p, s, t)
  }

  /** Some stored edge leads from `u` to `v`. */
  ghost predicate Adjacent(a: Adj, u: int, v: int)
  {
    exists w :: HasEdge(a, Edge(u, v, w))
  }

  /** No entry of `s` repeats. */
  ghost predicate Distinct(s: seq<int>)
  {
    forall i, j :: 0 <= i < j < |s| ==> s[i] != s[j]
  }

  /** The termination measure of the searches: a set of visited vertices that grew leaves fewer unvisited. */
  lemma Shrinks(univ: set<int>, before: set<int>, after: set<int>)
    requires before <= after && after <= univ
    ensures after != before ==> univ - after < univ - before
  {
    if univ - after == univ - before {
      forall x | x in after
        ensures x in before
      {
        assert x !in univ - after;
      }
      assert after == before;
    }
  }

  /** A walk extended by a stored edge leaving its end is a walk, one edge weight heavier. */
  lemma WalkExtend(a: Adj, p: seq<Edge>, s: int, t: int, e: Edge)
    requires IsWalk(a, p, s, t) && HasEdge(a, e) && e.from == t
    ensures IsWalk(a, p + [e], s, e.to)
    ensures Weight(p + [e]) == Weight(p) + e.weight
  {
    assert (p + [e])[..|p|] == p;
  }

  /** A vertex reachable from `s` passes reachability on along any stored edge it has. */
  lemma ReachStep(a: Adj, s: int, u: int, v: int)
    requires Reachable(a, s, u) && Adjacent(a, u, v)
    ensures Reachable(a, s, v)
  {
    var p :| IsWalk(a, p, s, u);
    var w :| HasEdge(a, Edge(u, v, w));
    WalkExtend(a, p, s, u, Edge(u, v, w));
  }

  /** A set holding `s` and the head of every stored edge whose tail it holds holds the end of every walk from `s`. */
  lemma {:induction false} WalkStaysIn(a: Adj, vs: set<int>, p: seq<Edge>, s: int, t: int)
    requires s in vs && (forall e :: HasEdge(a, e) && e.from in vs ==> e.to in vs)
    requires IsWalk(a, p, s, t)
    ensures t in vs
    decreases |p|
  {
    if p != [] {
      var init, e := p[..|p| - 1], p[|p| - 1];
      var x := if init == [] then s else init[|init| - 1].to;
      assert IsWalk(a, init, s, x) by {
        if init != [] {
          assert init[0] == p[0];
        }
      }
      if init != [] {
        assert p[|p| - 2].to == p[|p| - 1].from;
      }
      WalkStaysIn(a, vs, init, s, x);
      assert HasEdge(a, e);
    }
  }

  /** The relaxation test of both engines: `dist[u] + w < dist[v]`. */
  predicate CanRelax(dist: map<int, Dist>, e: Edge)
    requires e.from in dist && e.to in dist
  {
    Below(Plus(dist[e.from], e.weight), dist[e.to])
  }

  /** An edge out of a vertex still at infinity never fires: infinity plus a weight is not below anything. */
  lemma InfiniteNeverRelaxes(dist: map<int, Dist>, e: Edge)
    requires e.from in dist && e.to in dist && dist[e.from] == Inf
    ensures !CanRelax(dist, e)
  {
  }

  /** Every stored edge has both ends in the map and cannot be relaxed. */
  ghost predicate Feasible(a: Adj, dist: map<int, Dist>)
  {
    forall e :: HasEdge(a, e) ==> e.from in dist && e.to in dist && !CanRelax(dist, e)
  }

  /** Every finite distance is the weight of some walk from `s`. */
  ghost predicate Witnessed(a: Adj, s: int, dist: map<int, Dist>)
  {
    forall v :: v in dist && dist[v].Fin? ==> exists p :: IsWalk(a, p, s, v) && Weight(p) == dist[v].val
  }

  /** Every finite distance is the weight of the recorded walk from the source. */
  ghost predicate Walked(a: Adj, source: int, dist: map<int, Dist>, paths: map<int, seq<Edge>>)
  {
    forall v :: v in dist && dist[v].Fin? ==>
      v in paths && IsWalk(a, paths[v], source, v) && Weight(paths[v]) == dist[v].val
  }

  /**
   * Every recorded parent link `p -> v` is a stored edge whose weight is exactly the
   * difference of the two finite distances.
   */
  ghost predicate Tight(a: Adj, dist: map<int, Dist>, parent: map<int, Option<int>>)
  {
    forall v :: v in parent && parent[v].Some? ==>
      && v in dist && parent[v].value in dist && dist[v].Fin? && dist[parent[v].value].Fin?
      && exists w :: HasEdge(a, Edge(parent[v].value, v, w)) && dist[v].val == dist[parent[v].value].val + w
  }

  /**
   * Under a map no edge can relax, the end of every walk from a vertex with a finite
   * distance has a finite distance, at most the start's distance plus the walk's weight.
   */
  lemma {:induction false} WalkBound(a: Adj, dist: map<int, Dist>, p: seq<Edge>, s: int, t: int)
    requires Feasible(a, dist) && IsWalk(a, p, s, t)
    requires s in dist && dist[s].Fin?
    ensures t in dist && dist[t].Fin? && dist[t].val <= dist[s].val + Weight(p)
    decreases |p|
  {
    if p != [] {
      var q, e := p[..|p| - 1], p[|p| - 1];
      assert IsWalk(a, q, s, e.from);
      WalkBound(a, dist, q, s, e.from);
      assert HasEdge(a, e);
    }
  }

  /**
   * A map no edge can relax rules out negative cycles among the vertices reachable from a
   * vertex with a finite distance: every closed walk through them weighs at least zero.
   */
  lemma NoNegativeCycle(a: Adj, dist: map<int, Dist>, s: int, p: seq<Edge>, x: int, c: seq<Edge>)
    requires Feasible(a, dist) && s in dist && dist[s].Fin?
    requires IsWalk(a, p, s, x) && IsWalk(a, c, x, x)
    ensures Weight(c) >= 0
  {
    WalkBound(a, dist, p, s, x);
    WalkBound(a, dist, c, x, x);
  }

  /**
   * A map with `dist[s] == 0` that no edge can relax and whose finite values are walk
   * weights holds the shortest distances: a vertex is finite exactly when it is reachable
   * from `s`, and then its distance is at most the weight of every walk to it.
   */
  lemma Shortest(a: Adj, s: int, dist: map<int, Dist>, v: int)
    requires Feasible(a, dist) && Witnessed(a, s, dist)
    requires s in dist && dist[s] == Fin(0) && v in dist
    ensures dist[v].Fin? <==> Reachable(a, s, v)
    ensures forall p :: IsWalk(a, p, s, v) ==> dist[v].Fin? && dist[v].val <= Weight(p)
  {
    forall p | IsWalk(a, p, s, v)
      ensures dist[v].Fin? && dist[v].val <= Weight(p)
    {
      WalkBound(a, dist, p, s, v);
    }
  }

  /**
   * Two maps over the same vertices that both hold shortest distances from `s` are equal:
   * the engines agree on every graph where both apply.
   */
  lemma ShortestUnique(a: Adj, s: int, d1: map<int, Dist>, d2: map<int, Dist>)
    requires Feasible(a, d1) && Witnessed(a, s, d1) && s in d1 && d1[s] == Fin(0)
    requires Feasible(a, d2) && Witnessed(a, s, d2) && s in d2 && d2[s] == Fin(0)
    requires d1.Keys == d2.Keys
    ensures d1 == d2
  {
    forall v | v in d1
      ensures d1[v] == d2[v]
    {
      ShortestAgree(a, s, d1, d2, v);
    }
  }

  lemma ShortestAgree(a: Adj, s: int, d1: map<int, Dist>, d2: map<int, Dist>, v: int)
    requires Feasible(a, d1) && Witnessed(a, s, d1) && s in d1 && d1[s] == Fin(0)
    requires Feasible(a, d2) && Witnessed(a, s, d2) && s in d2 && d2[s] == Fin(0)
    requires v in d1 && v in d2
    ensures d1[v] == d2[v]
  {
    WitnessBound(a, s, d1, d2, v);
    WitnessBound(a, s, d2, d1, v);
  }

  /** A finite witnessed distance bounds the distance of a map that no edge can relax. */
  lemma WitnessBound(a: Adj, s: int, witnessed: map<int, Dist>, feasible: map<int, Dist>, v: int)
    requires Witnessed(a, s, witnessed) && v in witnessed
    requires Feasible(a, feasible) && s in feasible && feasible[s] == Fin(0)
    ensures witnessed[v].Fin? ==> v in feasible && feasible[v].Fin? && feasible[v].val <= witnessed[v].val
  {
    if witnessed[v].Fin? {
      var p :| IsWalk(a, p, s, v) && Weight(p) == witnessed[v].val;
      WalkBound(a, feasible, p, s, v);
    }
  }
}
