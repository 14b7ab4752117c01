/**
 * `dijkstra(graph, source)` of src/dijkstra.py: a priority-queue search with lazy deletion
 * of stale queue entries. On a graph without negative weights it ends in a distance map that
 * no edge can relax and whose finite values are walk weights, so by `Walks.Shortest` it
 * holds the shortest distances from the source.
 */
module Dijkstra {
  import opened Distance
  import opened Adjacency
  import opened Walks
  import opened SimpleGraph
  import opened MinHeap
  import opened DijkstraInvariant

  /**
   * `dijkstra(graph, source)`. Every vertex of the graph starts at infinity with no parent
   * and the source at zero; the source becomes a key of `dist` even when it is not a vertex,
   * but of `parent` only when it is one.
   */
  method Dijkstra(g: Graph, source: int) returns (dist: map<int, Dist>, parent: map<int, Option<int>>)
    requires g.Valid() && NonNegative(g.adj)
    ensures dist.Keys == (set v | v in g.Vertices()) + {source}
    ensures parent.Keys == set v | v in g.Vertices()
    ensures dist[source] == Fin(0)
    ensures source in parent ==> parent[source] == None
    ensures Feasible(g.adj, dist) && Witnessed(g.adj, source, dist)
    ensures forall v :: v in parent && dist[v] == Inf ==> parent[v] == None
    ensures forall v :: v in dist && v != source && dist[v].Fin? ==> v in parent && parent[v].Some?
    ensures Tight(g.adj, dist, parent)
    ensures Acyclic(parent)
  {
    var vertices := g.Vertices();
    var a := g.adj;
    ghost var vs := set v | v in vertices;
    dist := map v | v in vertices :: Inf;
    parent := map v | v in vertices :: None;
    dist := dist[source := Fin(0)];
    var pq: seq<(int, int)> := [(0, source)];
    ghost var done: set<int> := {};
    ghost var lo := 0;
    ghost var rank: map<int, nat> := map[];
    ghost var count: nat := 0;
    ghost var via: map<int, int> := map[];
    ghost var paths: map<int, seq<Edge>> := map[source := []];
    InitStep(a, source, vs);
    forall e | HasEdge(a, e)
      ensures e.from in vs && e.to in vs
    {
    }
    while pq != []
      invariant Inv(a, source, vs, dist, parent, pq, done, lo, rank, count, via, paths)
      decreases (vs + {source}) - done, |pq|
    {
      dist, parent, pq, done, lo, rank, count, via, paths :=
        Round(a, dist, parent, pq, source, vs, done, lo, rank, count, via, paths);
    }
    Finish(a, source, vs, dist, parent, done, lo, rank, count, via, paths);
  }

  /**
   * One round of the outer loop of `dijkstra`: pop the least pair `(d, u)`; skip it when
   * `dist[u]` has dropped below `d` since it was pushed, otherwise settle `u` and relax its
   * entries. A skip shortens the queue; a settle adds a vertex to the settled ones.
   */
  method Round(a: Adj, dist0: map<int, Dist>, parent0: map<int, Option<int>>, pq0: seq<(int, int)>,
               ghost source: int, ghost vs: set<int>, ghost done0: set<int>, ghost lo0: int,
               ghost rank0: map<int, nat>, ghost count0: nat, ghost via0: map<int, int>,
               ghost paths0: map<int, seq<Edge>>)
    returns (dist: map<int, Dist>, parent: map<int, Option<int>>, pq: seq<(int, int)>,
             ghost done: set<int>, ghost lo: int, ghost rank: map<int, nat>, ghost count: nat,
             ghost via: map<int, int>, ghost paths: map<int, seq<Edge>>)
    requires NonNegative(a) && (forall e :: HasEdge(a, e) ==> e.to in vs) && pq0 != []
    requires Inv(a, source, vs, dist0, parent0, pq0, done0, lo0, rank0, count0, via0, paths0)
    ensures Inv(a, source, vs, dist, parent, pq, done, lo, rank, count, via, paths)
    ensures (vs + {source}) - done < (vs + {source}) - done0 || (done == done0 && |pq| < |pq0|)
  {
    var k := MinIndex(pq0);
    var d, u := pq0[k].0, pq0[k].1;
    assert pq0[k] in pq0;
    if Below(dist0[u], Fin(d)) {
      StaleStep(a, source, vs, dist0, parent0, pq0, done0, lo0, rank0, count0, via0, paths0, k, d, u);
      dist, parent, pq, done, lo, rank, count, via, paths :=
        dist0, parent0, RemoveAt(pq0, k), done0, lo0, rank0, count0, via0, paths0;
      return;
    }
    Settle(a, source, vs, dist0, parent0, pq0, done0, lo0, rank0, count0, via0, paths0, k, d, u);
    done, lo, rank, count := done0 + {u}, d, rank0[u := count0], count0 + 1;
    dist, parent, pq, via, paths :=
      RelaxNeighbours(a, u, d, dist0, parent0, RemoveAt(pq0, k), source, vs, done, rank, count, via0, paths0);
  }

  /**
   * The inner loop of `dijkstra`: every entry `(v, w)` of the settled vertex `u`, popped at
   * distance `d`, lowers `dist[v]` to `d + w` when that is smaller, recording `u` as the
   * parent and pushing the new pair. Afterwards no edge leaving `u` can be relaxed.
   */
  method RelaxNeighbours(a: Adj, u: int, d: int, dist0: map<int, Dist>, parent0: map<int, Option<int>>,
                         pq0: seq<(int, int)>, ghost source: int, ghost vs: set<int>, ghost done: set<int>,
                         ghost rank: map<int, nat>, ghost count: nat, ghost via0: map<int, int>,
                         ghost paths0: map<int, seq<Edge>>)
    returns (dist: map<int, Dist>, parent: map<int, Option<int>>, pq: seq<(int, int)>,
             ghost via: map<int, int>, ghost paths: map<int, seq<Edge>>)
    requires NonNegative(a) && forall e :: HasEdge(a, e) ==> e.to in vs
    requires Scanning(a, source, vs, u, d, Neighbors(a, u), 0, dist0, parent0, pq0, done, rank, count, via0, paths0)
    ensures Inv(a, source, vs, dist, parent, pq, done, d, rank, count, via, paths)
  {
    dist, parent, pq, via, paths := dist0, parent0, pq0, via0, paths0;
    var nbrs := Neighbors(a, u);
    for i := 0 to |nbrs|
      invariant Scanning(a, source, vs, u, d, nbrs, i, dist, parent, pq, done, rank, count, via, paths)
    {
      var v, w := nbrs[i].target, nbrs[i].weight;
      assert HasEdge(a, Edge(u, v, w));
      var nd := d + w;
      if Below(Fin(nd), dist[v]) {
        RelaxEntry(a, source, vs, u, d, nbrs, i, v, w, nd, dist, parent, pq, done, rank, count, via, paths);
        dist, parent, pq := dist[v := Fin(nd)], parent[v := Some(u)], pq + [(nd, v)];
        via, paths := via[v := w], paths[v := paths[u] + [Edge(u, v, w)]];
      } else {
        SkipEntry(a, source, vs, u, d, nbrs, i, dist, parent, pq, done, rank, count, via, paths);
      }
    }
    ScanDone(a, source, vs, u, d, nbrs, dist, parent, pq, done, rank, count, via, paths);
  }
}
