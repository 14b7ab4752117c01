/**
 * `bellman_ford(graph, source)` of src/bellman_ford.py: at most `n - 1` passes over the edge
 * list, stopping after the first pass that relaxes nothing, then one more scan. The scan
 * finds a relaxable edge exactly when a closed walk of negative weight can be reached from
 * the source; otherwise the maps hold the shortest distances and a tree of tight edges.
 */
module BellmanFord {
  import opened Distance
  import opened Adjacency
  import opened Walks
  import opened SimpleGraph
  import opened Cycles

  /** `(None, None)` for a negative cycle, `(dist, parent)` otherwise. */
  datatype Outcome = NegativeCycle | Found(dist: map<int, Dist>, parent: map<int, Option<int>>)

  /**
   * Every recorded parent link `p -> v` is a stored edge, of weight `via[v]`, that `v`'s
   * distance is no further than: distances only fall, so `p` may have fallen since it set `v`.
   */
  ghost predicate Links(a: Adj, dist: map<int, Dist>, parent: map<int, Option<int>>, via: map<int, int>)
  {
    forall v :: v in parent && parent[v].Some? ==>
      && v in dist && parent[v].value in dist && v in via
      && dist[v].Fin? && dist[parent[v].value].Fin?
      && HasEdge(a, Edge(parent[v].value, v, via[v]))
      && dist[parent[v].value].val + via[v] <= dist[v].val
  }

  /**
   * What every relaxation keeps: the keys of both maps, the source at or below zero and
   * strictly below once it has a parent, a parent for every other finite vertex, the parent
   * links, and a walk of each finite distance.
   */
  ghost predicate Inv(a: Adj, source: int, vs: set<int>, dist: map<int, Dist>,
                      parent: map<int, Option<int>>, via: map<int, int>, paths: map<int, seq<Edge>>)
  {
    && dist.Keys == vs + {source} && parent.Keys == vs
    && dist[source].Fin? && dist[source].val <= 0
    && (source in parent && parent[source].Some? ==> dist[source].val < 0)
    && (forall v :: v in dist && v != source && dist[v].Fin? ==> v in parent && parent[v].Some?)
    && Links(a, dist, parent, via) && Walked(a, source, dist, paths)
  }

  /** No distance of `dist` is above its value in `dist0`. */
  ghost predicate Lowered(dist0: map<int, Dist>, dist: map<int, Dist>)
  {
    forall v :: v in dist0 ==> v in dist && !Below(dist0[v], dist[v])
  }

  /** The distance of `e.to` in `dist` is at most that of `e.from` in `dist0` plus the weight. */
  ghost predicate Stepped(dist0: map<int, Dist>, dist: map<int, Dist>, e: Edge)
  {
    e.from in dist0 && e.to in dist && !Below(Plus(dist0[e.from], e.weight), dist[e.to])
  }

  /** The first `i` edges of `es` are stepped. */
  ghost predicate Through(es: seq<Edge>, i: nat, dist0: map<int, Dist>, dist: map<int, Dist>)
    requires i <= |es|
  {
    forall j :: 0 <= j < i ==> Stepped(dist0, dist, es[j])
  }

  /** Every walk from the source with at most `k` edges ends at a finite distance no heavier. */
  ghost predicate Reach(a: Adj, source: int, dist: map<int, Dist>, k: int)
  {
    forall p, t :: IsWalk(a, p, source, t) && |p| <= k ==>
      t in dist && dist[t].Fin? && dist[t].val <= Weight(p)
  }

  /**
   * The `updated` flags of the passes made for `n` vertices: at most `n - 1` passes, every one
   * but the last relaxing something, and fewer than `n - 1` only when the last relaxed nothing.
   */
  ghost predicate Schedule(flags: seq<bool>, n: int)
  {
    && |flags| <= (if n > 0 then n - 1 else 0)
    && (forall k :: 0 <= k < |flags| - 1 ==> flags[k])
    && (|flags| < n - 1 ==> |flags| > 0 && !flags[|flags| - 1])
  }

  /**
   * What a search that meets no negative cycle returns: the source at zero and without a
   * parent, no edge relaxable, every finite distance the weight of a walk from the source, a
   * parent for exactly the reached vertices other than the source, each along a tight edge,
   * and parent links that never close a cycle.
   */
  ghost predicate ShortestTree(a: Adj, source: int, dist: map<int, Dist>, parent: map<int, Option<int>>)
  {
    && source in dist && dist[source] == Fin(0) && (source in parent ==> parent[source] == None)
    && Feasible(a, dist) && Witnessed(a, source, dist)
    && (forall v :: v in parent && v in dist && dist[v] == Inf ==> parent[v] == None)
    && (forall v :: v in dist && v != source && dist[v].Fin? ==> v in parent && parent[v].Some?)
    && Tight(a, dist, parent) && Acyclic(parent)
  }

  /**
   * Ghost relaxation times: every vertex of `dist` has a stamp below `clock`, and a relaxation
   * stamps its target with the clock. A parent link whose bound is met with equality, so that
   * its parent has not fallen since the link was set, runs from an earlier stamp to a later one.
   */
  ghost predicate Stamps(dist: map<int, Dist>, parent: map<int, Option<int>>, via: map<int, int>,
                         stamp: map<int, nat>, clock: nat)
  {
    && stamp.Keys == dist.Keys
    && (forall x :: x in stamp ==> stamp[x] < clock)
    && (forall v {:trigger parent[v]} ::
          && v in parent && parent[v].Some? && v in via && v in stamp && parent[v].value in stamp
          && dist[v].Fin? && dist[parent[v].value].Fin?
          && dist[parent[v].value].val + via[v] == dist[v].val
          ==> stamp[parent[v].value] < stamp[v])
  }

  /**
   * Relaxing `(u, v, w)` and stamping `v` with the clock keeps the stamps: the new link meets
   * its bound from an older stamp, and every link out of `v` no longer meets its bound, since
   * `v` fell strictly.
   */
  lemma RelaxStamps(a: Adj, dist: map<int, Dist>, parent: map<int, Option<int>>, via: map<int, int>,
                    stamp: map<int, nat>, clock: nat, u: int, v: int, w: int, nd: Dist)
    requires Links(a, dist, parent, via) && Stamps(dist, parent, via, stamp, clock)
    requires u in dist && v in dist && nd == Plus(dist[u], w) && Below(nd, dist[v])
    ensures Stamps(dist[v := nd], parent[v := Some(u)], via[v := w], stamp[v := clock], clock + 1)
  {
    var dist', parent', via', stamp' := dist[v := nd], parent[v := Some(u)], via[v := w], stamp[v := clock];
    forall x | && x in parent' && parent'[x].Some? && x in via' && x in stamp' && parent'[x].value in stamp'
               && dist'[x].Fin? && dist'[parent'[x].value].Fin?
               && dist'[parent'[x].value].val + via'[x] == dist'[x].val
      ensures stamp'[parent'[x].value] < stamp'[x]
    {
      if x != v {
        assert parent'[x] == parent[x];
      } else if u == v {
        assert false;
      }
    }
  }

  /**
   * When no edge can be relaxed every link meets its bound with equality, so the stamps rise
   * along every parent link: the parent links are acyclic.
   */
  lemma FoundAcyclic(a: Adj, edges: seq<Edge>, dist: map<int, Dist>, parent: map<int, Option<int>>,
                     via: map<int, int>, stamp: map<int, nat>, clock: nat)
    requires forall e :: HasEdge(a, e) ==> e in edges
    requires Links(a, dist, parent, via) && Stamps(dist, parent, via, stamp, clock)
    requires Through(edges, |edges|, dist, dist)
    ensures Acyclic(parent)
  {
    forall v | v in parent && parent[v].Some?
      ensures v in stamp && parent[v].value in stamp && stamp[parent[v].value] < stamp[v]
    {
      var e := Edge(parent[v].value, v, via[v]);
      var j :| 0 <= j < |edges| && edges[j] == e;
      assert Stepped(dist, dist, edges[j]);
    }
    assert Ranked(parent, stamp);
  }

  /** The initial maps: every vertex at infinity without a parent, the source at zero. */
  lemma InitStep(a: Adj, source: int, vertices: seq<int>)
    ensures Inv(a, source, set v | v in vertices, (map v | v in vertices :: Inf)[source := Fin(0)],
                map v | v in vertices :: None, map[], map[source := []])
    ensures Reach(a, source, (map v | v in vertices :: Inf)[source := Fin(0)], 0)
  {
    assert IsWalk(a, [], source, source);
  }

  /** Relaxing `(u, v, w)` to `nd == dist[u] + w` keeps the parent links. */
  lemma RelaxLinks(a: Adj, dist: map<int, Dist>, parent: map<int, Option<int>>, via: map<int, int>,
                   u: int, v: int, w: int, nd: Dist)
    requires Links(a, dist, parent, via) && HasEdge(a, Edge(u, v, w))
    requires u in dist && v in dist && nd == Plus(dist[u], w) && Below(nd, dist[v])
    ensures Links(a, dist[v := nd], parent[v := Some(u)], via[v := w])
  {
    var dist', parent', via' := dist[v := nd], parent[v := Some(u)], via[v := w];
    forall x | x in parent' && parent'[x].Some?
      ensures && x in dist' && parent'[x].value in dist' && x in via'
              && dist'[x].Fin? && dist'[parent'[x].value].Fin?
              && HasEdge(a, Edge(parent'[x].value, x, via'[x]))
              && dist'[parent'[x].value].val + via'[x] <= dist'[x].val
    {
      if x != v {
        assert parent'[x] == parent[x];
      }
    }
  }

  /** Relaxing `(u, v, w)` extends the walk to `u` by the edge into a walk to `v`. */
  lemma RelaxWalked(a: Adj, source: int, dist: map<int, Dist>, paths: map<int, seq<Edge>>,
                    u: int, v: int, w: int, nd: Dist)
    requires Walked(a, source, dist, paths) && HasEdge(a, Edge(u, v, w))
    requires u in dist && nd == Plus(dist[u], w) && nd.Fin?
    ensures Walked(a, source, dist[v := nd], paths[v := paths[u] + [Edge(u, v, w)]])
  {
    WalkExtend(a, paths[u], source, u, Edge(u, v, w));
  }

  /** One relaxation keeps the invariant. */
  lemma RelaxStep(a: Adj, source: int, vs: set<int>, dist: map<int, Dist>, parent: map<int, Option<int>>,
                  via: map<int, int>, paths: map<int, seq<Edge>>, u: int, v: int, w: int, nd: Dist)
    requires Inv(a, source, vs, dist, parent, via, paths) && HasEdge(a, Edge(u, v, w))
    requires u in dist && v in vs && nd == Plus(dist[u], w) && Below(nd, dist[v])
    ensures Inv(a, source, vs, dist[v := nd], parent[v := Some(u)], via[v := w],
                paths[v := paths[u] + [Edge(u, v, w)]])
  {
    RelaxLinks(a, dist, parent, via, u, v, w, nd);
    RelaxWalked(a, source, dist, paths, u, v, w, nd);
  }

  /** A relaxation lowers one distance and steps the edge it relaxed. */
  lemma PassRelax(edges: seq<Edge>, i: nat, dist0: map<int, Dist>, dist: map<int, Dist>,
                  u: int, v: int, w: int, nd: Dist)
    requires i < |edges| && edges[i] == Edge(u, v, w)
    requires Lowered(dist0, dist) && dist.Keys == dist0.Keys && Through(edges, i, dist0, dist)
    requires u in dist && v in dist && nd == Plus(dist[u], w) && Below(nd, dist[v])
    ensures Lowered(dist0, dist[v := nd]) && Through(edges, i + 1, dist0, dist[v := nd])
  {
    forall j | 0 <= j < i + 1
      ensures Stepped(dist0, dist[v := nd], edges[j])
    {
      if j < i {
        assert Stepped(dist0, dist, edges[j]);
      }
    }
  }

  /** An edge that is not relaxed is stepped already. */
  lemma PassSkip(edges: seq<Edge>, i: nat, dist0: map<int, Dist>, dist: map<int, Dist>,
                 u: int, v: int, w: int, nd: Dist)
    requires i < |edges| && edges[i] == Edge(u, v, w)
    requires Lowered(dist0, dist) && dist.Keys == dist0.Keys && Through(edges, i, dist0, dist)
    requires u in dist && v in dist && nd == Plus(dist[u], w) && !Below(nd, dist[v])
    ensures Through(edges, i + 1, dist0, dist)
  {
    assert !Below(dist0[u], dist[u]);
    assert Stepped(dist0, dist, edges[i]);
  }

  /**
   * One pass, `for u, v, w in edges`: relax every edge whose source's distance plus its
   * weight is below its target's, recording the source as parent. Distances only fall, each
   * edge ends stepped from the distances the pass started with, a pass that relaxes nothing
   * changes nothing, and one that relaxes something lowers some distance.
   */
  method Pass(a: Adj, edges: seq<Edge>, dist0: map<int, Dist>, parent0: map<int, Option<int>>,
              ghost source: int, ghost vs: set<int>, ghost via0: map<int, int>, ghost paths0: map<int, seq<Edge>>,
              ghost stamp0: map<int, nat>, ghost clock0: nat)
    returns (dist: map<int, Dist>, parent: map<int, Option<int>>, updated: bool,
             ghost via: map<int, int>, ghost paths: map<int, seq<Edge>>, ghost stamp: map<int, nat>, ghost clock: nat)
    requires forall e :: e in edges ==> HasEdge(a, e) && e.from in vs && e.to in vs
    requires Inv(a, source, vs, dist0, parent0, via0, paths0) && Stamps(dist0, parent0, via0, stamp0, clock0)
    ensures Inv(a, source, vs, dist, parent, via, paths) && Stamps(dist, parent, via, stamp, clock)
    ensures Lowered(dist0, dist) && Through(edges, |edges|, dist0, dist)
    ensures !updated ==> dist == dist0 && parent == parent0
    ensures updated ==> exists x :: x in dist0 && Below(dist[x], dist0[x])
  {
    dist, parent, updated, via, paths := dist0, parent0, false, via0, paths0;
    stamp, clock := stamp0, clock0;
    ghost var lowered := source;
    for i := 0 to |edges|
      invariant Inv(a, source, vs, dist, parent, via, paths) && Stamps(dist, parent, via, stamp, clock)
      invariant Lowered(dist0, dist) && Through(edges, i, dist0, dist)
      invariant !updated ==> dist == dist0 && parent == parent0
      invariant updated ==> lowered in dist0 && Below(dist[lowered], dist0[lowered])
    {
      var u, v, w := edges[i].from, edges[i].to, edges[i].weight;
      assert edges[i] in edges;
      var nd := Plus(dist[u], w);
      if Below(nd, dist[v]) {
        RelaxStep(a, source, vs, dist, parent, via, paths, u, v, w, nd);
        RelaxStamps(a, dist, parent, via, stamp, clock, u, v, w, nd);
        PassRelax(edges, i, dist0, dist, u, v, w, nd);
        dist, parent, updated := dist[v := nd], parent[v := Some(u)], true;
        via, paths := via[v := w], paths[v := paths[u] + [Edge(u, v, w)]];
        stamp, clock := stamp[v := clock], clock + 1;
        lowered := v;
      } else {
        PassSkip(edges, i, dist0, dist, u, v, w, nd);
      }
    }
  }

  /** After a pass the walks with one more edge are covered. */
  lemma ReachStep(a: Adj, source: int, edges: seq<Edge>, dist0: map<int, Dist>, dist: map<int, Dist>, k: nat)
    requires forall e :: HasEdge(a, e) ==> e in edges
    requires Reach(a, source, dist0, k) && Lowered(dist0, dist) && Through(edges, |edges|, dist0, dist)
    ensures Reach(a, source, dist, k + 1)
  {
    forall p, t | IsWalk(a, p, source, t) && |p| <= k + 1
      ensures t in dist && dist[t].Fin? && dist[t].val <= Weight(p)
    {
      if |p| <= k {
        assert t in dist0;
      } else {
        var q: seq<Edge>, e: Edge := p[..|p| - 1], p[|p| - 1];
        assert IsWalk(a, q, source, e.from);
        assert HasEdge(a, e);
        var j :| 0 <= j < |edges| && edges[j] == e;
        assert Stepped(dist0, dist, edges[j]);
      }
    }
  }

  /** A map no edge can relax, with the source at or below zero, covers every walk. */
  lemma QuietReach(a: Adj, source: int, edges: seq<Edge>, dist: map<int, Dist>, k: int)
    requires forall e :: HasEdge(a, e) ==> e in edges
    requires Through(edges, |edges|, dist, dist)
    requires source in dist && dist[source].Fin? && dist[source].val <= 0
    ensures Feasible(a, dist) && Reach(a, source, dist, k)
  {
    forall e | HasEdge(a, e)
      ensures e.from in dist && e.to in dist && !CanRelax(dist, e)
    {
      var j :| 0 <= j < |edges| && edges[j] == e;
      assert Stepped(dist, dist, edges[j]);
    }
    forall p, t | IsWalk(a, p, source, t) && |p| <= k
      ensures t in dist && dist[t].Fin? && dist[t].val <= Weight(p)
    {
      WalkBound(a, dist, p, source, t);
    }
  }

  /**
   * An edge that the final scan can still relax, after every walk of fewer edges than there
   * are vertices has been covered, reveals a negative closed walk reachable from the source.
   */
  lemma NegativeWitness(a: Adj, vs: set<int>, source: int, dist: map<int, Dist>,
                        paths: map<int, seq<Edge>>, e: Edge)
    requires forall e :: HasEdge(a, e) ==> e.from in vs && e.to in vs
    requires Reach(a, source, dist, |vs| - 1) && Walked(a, source, dist, paths)
    requires HasEdge(a, e) && e.from in dist && e.to in dist && CanRelax(dist, e)
    ensures NegativeCycleFrom(a, source)
  {
    var u := e.from;
    WalkExtend(a, paths[u], source, u, e);
    var found, q, pre, x, c := ShortenOrCycle(a, vs, source, paths[u] + [e], e.to);
    if found {
      assert IsWalk(a, pre, source, x) && IsWalk(a, c, x, x) && Weight(c) < 0;
    } else {
      assert false;
    }
  }

  /**
   * A final scan that relaxes nothing leaves the source at zero without a parent, the
   * parent links tight, no negative closed walk reachable, and the distances shortest.
   */
  lemma FoundFacts(a: Adj, source: int, vs: set<int>, edges: seq<Edge>, dist: map<int, Dist>,
                   parent: map<int, Option<int>>, via: map<int, int>, paths: map<int, seq<Edge>>)
    requires forall e :: HasEdge(a, e) ==> e in edges
    requires Inv(a, source, vs, dist, parent, via, paths) && Through(edges, |edges|, dist, dist)
    ensures Feasible(a, dist) && Witnessed(a, source, dist) && dist[source] == Fin(0)
    ensures source in parent ==> parent[source] == None
    ensures forall v :: v in parent && dist[v] == Inf ==> parent[v] == None
    ensures forall v :: v in dist && v != source && dist[v].Fin? ==> v in parent && parent[v].Some?
    ensures Tight(a, dist, parent)
    ensures !NegativeCycleFrom(a, source)
  {
    QuietReach(a, source, edges, dist, 0);
    WalkBound(a, dist, paths[source], source, source);
    forall v | v in parent && parent[v].Some?
      ensures exists w :: HasEdge(a, Edge(parent[v].value, v, w)) && dist[v].val == dist[parent[v].value].val + w
    {
      assert HasEdge(a, Edge(parent[v].value, v, via[v]));
    }
    forall p, x, c | IsWalk(a, p, source, x) && IsWalk(a, c, x, x)
      ensures Weight(c) >= 0
    {
      NoNegativeCycle(a, dist, source, p, x, c);
    }
  }

  /** What the search returns when the final scan finds nothing: a shortest-path tree. */
  lemma FoundTree(a: Adj, source: int, vs: set<int>, edges: seq<Edge>, dist: map<int, Dist>,
                  parent: map<int, Option<int>>, via: map<int, int>, paths: map<int, seq<Edge>>,
                  stamp: map<int, nat>, clock: nat)
    requires forall e :: HasEdge(a, e) ==> e in edges
    requires Inv(a, source, vs, dist, parent, via, paths) && Stamps(dist, parent, via, stamp, clock)
    requires Through(edges, |edges|, dist, dist)
    ensures ShortestTree(a, source, dist, parent) && !NegativeCycleFrom(a, source)
  {
    FoundFacts(a, source, vs, edges, dist, parent, via, paths);
    FoundAcyclic(a, edges, dist, parent, via, stamp, clock);
  }


  /** One pass of the outer loop: after `k + 1` passes every walk of at most `k + 1` edges is bounded. */
  method Round(a: Adj, edges: seq<Edge>, n: int, k: nat, dist0: map<int, Dist>, parent0: map<int, Option<int>>,
               ghost source: int, ghost vs: set<int>, ghost via0: map<int, int>, ghost paths0: map<int, seq<Edge>>,
               ghost stamp0: map<int, nat>, ghost clock0: nat)
    returns (dist: map<int, Dist>, parent: map<int, Option<int>>, updated: bool,
             ghost via: map<int, int>, ghost paths: map<int, seq<Edge>>, ghost stamp: map<int, nat>, ghost clock: nat)
    requires forall e :: e in edges ==> HasEdge(a, e) && e.from in vs && e.to in vs
    requires forall e :: HasEdge(a, e) ==> e in edges
    requires Inv(a, source, vs, dist0, parent0, via0, paths0) && Reach(a, source, dist0, k)
    requires Stamps(dist0, parent0, via0, stamp0, clock0)
    ensures Inv(a, source, vs, dist, parent, via, paths) && Reach(a, source, dist, k + 1)
    ensures Stamps(dist, parent, via, stamp, clock)
    ensures !updated ==> Feasible(a, dist) && Reach(a, source, dist, n - 1)
  {
    dist, parent, updated, via, paths, stamp, clock := Pass(a, edges, dist0, parent0, source, vs, via0, paths0, stamp0, clock0);
    ReachStep(a, source, edges, dist0, dist, k);
    if !updated {
      QuietReach(a, source, edges, dist, n - 1);
    }
  }

  /**
   * The passes, `for i in range(n - 1)`, leaving the loop after a pass that relaxed nothing.
   * `flags` holds the `updated` flag of each pass made: every pass but the last relaxed
   * something, and a loop cut short ended on a pass that relaxed nothing. Afterwards every walk
   * from the source with fewer than `n` edges is covered, and a loop cut short left a map that
   * no edge can relax.
   */
  method Passes(a: Adj, edges: seq<Edge>, n: int, dist0: map<int, Dist>, parent0: map<int, Option<int>>,
                ghost source: int, ghost vs: set<int>, ghost via0: map<int, int>, ghost paths0: map<int, seq<Edge>>,
                ghost stamp0: map<int, nat>, ghost clock0: nat)
    returns (dist: map<int, Dist>, parent: map<int, Option<int>>, passes: nat, ghost flags: seq<bool>,
             ghost via: map<int, int>, ghost paths: map<int, seq<Edge>>, ghost stamp: map<int, nat>, ghost clock: nat)
    requires forall e :: e in edges ==> HasEdge(a, e) && e.from in vs && e.to in vs
    requires forall e :: HasEdge(a, e) ==> e in edges
    requires Inv(a, source, vs, dist0, parent0, via0, paths0) && Reach(a, source, dist0, 0)
    requires Stamps(dist0, parent0, via0, stamp0, clock0)
    ensures Inv(a, source, vs, dist, parent, via, paths) && Reach(a, source, dist, n - 1)
    ensures Stamps(dist, parent, via, stamp, clock)
    ensures passes == |flags| && Schedule(flags, n)
    ensures passes < n - 1 ==> Feasible(a, dist)
  {
    dist, parent, via, paths, stamp, clock := dist0, parent0, via0, paths0, stamp0, clock0;
    passes, flags := 0, [];
    while passes < n - 1
      invariant passes <= if n > 0 then n - 1 else 0
      invariant |flags| == passes && forall k :: 0 <= k < passes ==> flags[k]
      invariant Inv(a, source, vs, dist, parent, via, paths) && Reach(a, source, dist, passes)
      invariant Stamps(dist, parent, via, stamp, clock)
    {
      var updated;
      dist, parent, updated, via, paths, stamp, clock := Round(a, edges, n, passes, dist, parent, source, vs, via, paths, stamp, clock);
      passes, flags := passes + 1, flags + [updated];
      if !updated {
        return;
      }
    }
  }

  /** The final scan, `for u, v, w in edges`: the first edge that can still be relaxed, if any. */
  method Scan(edges: seq<Edge>, dist: map<int, Dist>) returns (relaxable: bool, ghost j: nat)
    requires forall e :: e in edges ==> e.from in dist && e.to in dist
    ensures relaxable ==> j < |edges| && CanRelax(dist, edges[j])
    ensures !relaxable ==> Through(edges, |edges|, dist, dist)
  {
    for i := 0 to |edges|
      invariant Through(edges, i, dist, dist)
    {
      var u, v, w := edges[i].from, edges[i].to, edges[i].weight;
      assert edges[i] in edges;
      if Below(Plus(dist[u], w), dist[v]) {
        return true, i;
      }
    }
    return false, 0;
  }

  /**
   * `bellman_ford(graph, source)`. `passes` counts the passes made and `flags` holds each
   * pass's `updated`: at most `n - 1` passes for `n` vertices, every one but the last relaxing
   * something, and fewer than `n - 1` only when the last relaxed nothing.
   */
  method BellmanFord(g: Graph, source: int) returns (r: Outcome, ghost passes: nat, ghost flags: seq<bool>)
    requires g.Valid()
    ensures r.NegativeCycle? <==> NegativeCycleFrom(g.adj, source)
    ensures passes == |flags| && Schedule(flags, |g.Vertices()|)
    ensures passes < |g.Vertices()| - 1 ==> r.Found?
    ensures r.Found? ==> && r.dist.Keys == (set v | v in g.Vertices()) + {source}
                         && r.parent.Keys == set v | v in g.Vertices()
    ensures r.Found? ==> ShortestTree(g.adj, source, r.dist, r.parent)
  {
    var vertices := g.Vertices();
    var edges := g.Edges();
    forall e | HasEdge(g.adj, e)
      ensures e.from in vertices && e.to in vertices
    {
    }
    r, passes, flags := Search(g.adj, vertices, edges, source);
  }

  /** The maps `bellman_ford` starts from: every vertex at infinity without a parent, the source at zero. */
  method Start(a: Adj, vertices: seq<int>, source: int)
    returns (dist: map<int, Dist>, parent: map<int, Option<int>>, ghost via: map<int, int>,
             ghost paths: map<int, seq<Edge>>, ghost stamp: map<int, nat>, ghost clock: nat)
    ensures Inv(a, source, (set v | v in vertices), dist, parent, via, paths) && Reach(a, source, dist, 0)
    ensures Stamps(dist, parent, via, stamp, clock)
  {
    dist := map v | v in vertices :: Inf;
    parent := map v | v in vertices :: None;
    dist := dist[source := Fin(0)];
    via, paths := map[], map[source := []];
    InitStep(a, source, vertices);
    stamp, clock := map v | v in dist :: 0, 1;
  }

  /** The body of `bellman_ford` once the graph's `vertices()` and `edges()` are read. */
  method Search(a: Adj, vertices: seq<int>, edges: seq<Edge>, source: int) returns (r: Outcome, ghost passes: nat, ghost flags: seq<bool>)
    requires forall i, j :: 0 <= i < j < |vertices| ==> vertices[i] < vertices[j]
    requires forall e :: e in edges <==> HasEdge(a, e)
    requires forall e :: HasEdge(a, e) ==> e.from in vertices && e.to in vertices
    ensures r.NegativeCycle? <==> NegativeCycleFrom(a, source)
    ensures passes == |flags| && Schedule(flags, |vertices|)
    ensures passes < |vertices| - 1 ==> r.Found?
    ensures r.Found? ==> && r.dist.Keys == (set v | v in vertices) + {source}
                         && r.parent.Keys == set v | v in vertices
    ensures r.Found? ==> ShortestTree(a, source, r.dist, r.parent)
  {
    ghost var vs := set v | v in vertices;
    var n := |vertices|;
    DistinctCard(vertices);
    var dist, parent, via, paths, stamp, clock := Start(a, vertices, source);
    var count;
    dist, parent, count, flags, via, paths, stamp, clock := Passes(a, edges, n, dist, parent, source, vs, via, paths, stamp, clock);
    passes := count;
    r := Verdict(a, edges, dist, parent, source, vs, via, paths, stamp, clock);
  }

  /**
   * The final scan and the return of `bellman_ford`: `(None, None)` when an edge can still be
   * relaxed, the two maps otherwise.
   */
  method Verdict(a: Adj, edges: seq<Edge>, dist: map<int, Dist>, parent: map<int, Option<int>>,
                 ghost source: int, ghost vs: set<int>, ghost via: map<int, int>, ghost paths: map<int, seq<Edge>>,
                 ghost stamp: map<int, nat>, ghost clock: nat)
    returns (r: Outcome)
    requires forall e :: e in edges <==> HasEdge(a, e)
    requires forall e :: HasEdge(a, e) ==> e.from in vs && e.to in vs
    requires Inv(a, source, vs, dist, parent, via, paths) && Reach(a, source, dist, |vs| - 1)
    requires Stamps(dist, parent, via, stamp, clock)
    ensures r.NegativeCycle? <==> NegativeCycleFrom(a, source)
    ensures Feasible(a, dist) ==> r.Found?
    ensures r.Found? ==> r.dist == dist && r.parent == parent && ShortestTree(a, source, dist, parent)
  {
    var relaxable;
    ghost var j;
    relaxable, j := Scan(edges, dist);
    if relaxable {
      assert edges[j] in edges;
      NegativeWitness(a, vs, source, dist, paths, edges[j]);
      return NegativeCycle;
    }
    FoundTree(a, source, vs, edges, dist, parent, via, paths, stamp, clock);
    r := Found(dist, parent);
  }
}
