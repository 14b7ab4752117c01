/**
 * The two engines side by side, and applied to small concrete graphs: the three-vertex cycle of
 * negative weight that Bellman-Ford rejects, and a four-vertex graph on which both engines give
 * the shortest distances and the parent links that `reconstruct_path` follows back from vertex 3.
 */
module Scenarios {
  import opened Distance
  import opened Adjacency
  import opened Walks
  import opened SimpleGraph
  import opened Cycles
  import opened DijkstraInvariant
  import opened Dijkstra
  import opened BellmanFord

  /**
   * On a graph without negative weights, `bellman_ford` finds no negative cycle and returns the
   * distances `dijkstra` returns.
   */
  method CrossCheck(g: Graph, source: int) returns (dist: map<int, Dist>, r: Outcome)
    requires g.Valid() && NonNegative(g.adj)
    ensures r.Found? && r.dist == dist
  {
    var parent;
    dist, parent := Dijkstra.Dijkstra(g, source);
    NoNegativeCycleFrom(g.adj, source, dist);
    ghost var passes, flags;
    r, passes, flags := BellmanFord.BellmanFord(g, source);
    ShortestUnique(g.adj, source, dist, r.dist);
  }

  /** A map no edge can relax, finite at `s`, rules out a negative cycle reachable from `s`. */
  lemma NoNegativeCycleFrom(a: Adj, s: int, dist: map<int, Dist>)
    requires Feasible(a, dist) && s in dist && dist[s].Fin?
    ensures !NegativeCycleFrom(a, s)
  {
    forall p, x, c | IsWalk(a, p, s, x) && IsWalk(a, c, x, x)
      ensures Weight(c) >= 0
    {
      NoNegativeCycle(a, dist, s, p, x, c);
    }
  }

  /** Vertices 0 to 3 have the lists `l0` to `l3`; every other vertex has none. */
  ghost predicate Stores(a: Adj, l0: seq<Entry>, l1: seq<Entry>, l2: seq<Entry>, l3: seq<Entry>)
  {
    forall x :: Neighbors(a, x) ==
      if x == 0 then l0 else if x == 1 then l1 else if x == 2 then l2 else if x == 3 then l3 else []
  }

  /** The list `l` with `(v, w)` appended when `x` is `u`. */
  function Grown(l: seq<Entry>, x: int, u: int, v: int, w: int): seq<Entry>
  {
    if x == u then l + [Entry(v, w)] else l
  }

  /** A directed `add_edge(u, v, w)` appends `(v, w)` to `u`'s list and changes no other. */
  method Push(g: Graph, ghost l0: seq<Entry>, ghost l1: seq<Entry>, ghost l2: seq<Entry>, ghost l3: seq<Entry>,
              u: int, v: int, w: int)
    requires g.Valid() && g.directed && Stores(g.adj, l0, l1, l2, l3) && 0 <= u <= 3
    modifies g
    ensures g.Valid()
    ensures Stores(g.adj, Grown(l0, 0, u, v, w), Grown(l1, 1, u, v, w), Grown(l2, 2, u, v, w), Grown(l3, 3, u, v, w))
  {
    g.AddEdge(u, v, w);
  }

  /** The cycle `0 -> 1 (1)`, `1 -> 2 (1)`, `2 -> 0 (-3)` of weight -1 through the source 0. */
  lemma NegativeTriangle(a: Adj)
    requires HasEdge(a, Edge(0, 1, 1)) && HasEdge(a, Edge(1, 2, 1)) && HasEdge(a, Edge(2, 0, -3))
    ensures NegativeCycleFrom(a, 0)
  {
    assert IsWalk(a, [], 0, 0);
    WalkExtend(a, [], 0, 0, Edge(0, 1, 1));
    WalkExtend(a, [Edge(0, 1, 1)], 0, 1, Edge(1, 2, 1));
    assert [Edge(0, 1, 1)] + [Edge(1, 2, 1)] == [Edge(0, 1, 1), Edge(1, 2, 1)];
    WalkExtend(a, [Edge(0, 1, 1), Edge(1, 2, 1)], 0, 2, Edge(2, 0, -3));
  }

  /** `bellman_ford` on the directed triangle of weight -1 from vertex 0 reports the negative cycle. */
  method TriangleReported() returns (r: Outcome)
    ensures r == NegativeCycle
  {
    var g := new Graph(true);
    assert Stores(g.adj, [], [], [], []);
    Push(g, [], [], [], [], 0, 1, 1);
    Push(g, [Entry(1, 1)], [], [], [], 1, 2, 1);
    Push(g, [Entry(1, 1)], [Entry(2, 1)], [], [], 2, 0, -3);
    TriangleCycle(g.adj);
    ghost var passes, flags;
    r, passes, flags := BellmanFord.BellmanFord(g, 0);
  }

  /** The three stored lists of the triangle hold its cycle. */
  lemma TriangleCycle(a: Adj)
    requires Stores(a, [Entry(1, 1)], [Entry(2, 1)], [Entry(0, -3)], [])
    ensures NegativeCycleFrom(a, 0)
  {
    assert Neighbors(a, 0) == [Entry(1, 1)] && Neighbors(a, 1) == [Entry(2, 1)] && Neighbors(a, 2) == [Entry(0, -3)];
    NegativeTriangle(a);
  }

  /**
   * The lists of the directed graph `0 -> 1 (4)`, `0 -> 2 (1)`, `2 -> 1 (w)`, `1 -> 3 (1)`,
   * `2 -> 3 (5)`, in that order of insertion.
   */
  ghost predicate Diamond(a: Adj, w: int)
  {
    Stores(a, [Entry(1, 4), Entry(2, 1)], [Entry(3, 1)], [Entry(1, w), Entry(3, 5)], [])
  }

  /** The five edges of the graph are its only stored edges. */
  lemma DiamondEdges(a: Adj, w: int, e: Edge)
    requires Diamond(a, w)
    ensures HasEdge(a, e) <==>
      e == Edge(0, 1, 4) || e == Edge(0, 2, 1) || e == Edge(2, 1, w) || e == Edge(1, 3, 1) || e == Edge(2, 3, 5)
  {
  }

  /** Five `add_edge` calls on a new directed graph build it. */
  method BuildDiamond(w: int) returns (g: Graph)
    ensures fresh(g) && g.Valid() && g.directed && Diamond(g.adj, w)
  {
    g := new Graph(true);
    assert Stores(g.adj, [], [], [], []);
    Push(g, [], [], [], [], 0, 1, 4);
    Push(g, [Entry(1, 4)], [], [], [], 0, 2, 1);
    Push(g, [Entry(1, 4), Entry(2, 1)], [], [], [], 2, 1, w);
    Push(g, [Entry(1, 4), Entry(2, 1)], [], [Entry(1, w)], [], 1, 3, 1);
    Push(g, [Entry(1, 4), Entry(2, 1)], [Entry(3, 1)], [Entry(1, w)], [], 2, 3, 5);
  }

  /** The graph's `vertices()` are 0, 1, 2 and 3. */
  lemma DiamondVertices(g: Graph, w: int)
    requires g.Valid() && Diamond(g.adj, w)
    ensures (set v | v in g.Vertices()) == {0, 1, 2, 3}
  {
    var vs := g.Vertices();
    forall x
      ensures x in vs <==> 0 <= x <= 3
    {
      DiamondVertex(g.adj, w, x);
    }
    FourVertices(vs);
  }

  /** A list holding exactly 0, 1, 2 and 3 holds the set of them. */
  lemma FourVertices(vs: seq<int>)
    requires forall x :: x in vs <==> 0 <= x <= 3
    ensures (set v | v in vs) == {0, 1, 2, 3}
  {
    var s := set v | v in vs;
    forall x
      ensures x in s <==> x in {0, 1, 2, 3}
    {
      assert x in s <==> x in vs;
    }
  }

  /** A vertex of the graph is a key of its dictionary or a neighbour in an entry. */
  lemma DiamondVertex(a: Adj, w: int, x: int)
    requires Adjacency.Valid(a) && Diamond(a, w)
    ensures x in a.lists || IsTarget(a, x) <==> 0 <= x <= 3
  {
    if x < 0 || 3 < x {
      assert Neighbors(a, x) == [];
      if IsTarget(a, x) {
        var u, z :| HasEdge(a, Edge(u, x, z));
        DiamondEdges(a, w, Edge(u, x, z));
      }
    } else if x == 3 {
      DiamondEdges(a, w, Edge(1, 3, 1));
    } else {
      assert Neighbors(a, x) != [];
    }
  }

  /** No edge can relax the distances 0, `1 + w`, 1, `2 + w` when `w <= 3`. */
  lemma DiamondFeasible(a: Adj, w: int, t: map<int, Dist>)
    requires Diamond(a, w) && w <= 3
    requires t == map[0 := Fin(0), 1 := Fin(1 + w), 2 := Fin(1), 3 := Fin(2 + w)]
    ensures Feasible(a, t)
  {
    forall e | HasEdge(a, e)
      ensures e.from in t && e.to in t && !CanRelax(t, e)
    {
      DiamondEdges(a, w, e);
    }
  }

  /** The distances 0, `1 + w`, 1, `2 + w` are the weights of the walks `0`, `0 2 1`, `0 2`, `0 2 1 3`. */
  lemma DiamondWitnessed(a: Adj, w: int, t: map<int, Dist>)
    requires Diamond(a, w)
    requires t == map[0 := Fin(0), 1 := Fin(1 + w), 2 := Fin(1), 3 := Fin(2 + w)]
    ensures Witnessed(a, 0, t)
  {
    var e02, e21, e13 := Edge(0, 2, 1), Edge(2, 1, w), Edge(1, 3, 1);
    DiamondEdges(a, w, e02);
    DiamondEdges(a, w, e21);
    DiamondEdges(a, w, e13);
    assert IsWalk(a, [], 0, 0);
    WalkExtend(a, [], 0, 0, e02);
    assert [] + [e02] == [e02];
    WalkExtend(a, [e02], 0, 2, e21);
    WalkExtend(a, [e02] + [e21], 0, 1, e13);
  }

  /** Both, which pin down the shortest distances. */
  lemma DiamondPinned(a: Adj, w: int, t: map<int, Dist>)
    requires Diamond(a, w) && w <= 3
    requires t == map[0 := Fin(0), 1 := Fin(1 + w), 2 := Fin(1), 3 := Fin(2 + w)]
    ensures Feasible(a, t) && Witnessed(a, 0, t)
  {
    DiamondFeasible(a, w, t);
    DiamondWitnessed(a, w, t);
  }

  /**
   * `dijkstra` from 0 on the graph with `2 -> 1` of weight 1 finds the distances 0, 2, 1, 3,
   * and `reconstruct_path` to 3 follows the links 3 <- 1 <- 2 <- 0.
   */
  method DiamondDijkstra() returns (dist: map<int, Dist>, path: seq<int>)
    ensures dist == map[0 := Fin(0), 1 := Fin(2), 2 := Fin(1), 3 := Fin(3)]
    ensures path == [0, 2, 1, 3]
  {
    var g := BuildDiamond(1);
    DiamondNonNegative(g.adj);
    var parent;
    dist, parent := Dijkstra.Dijkstra(g, 0);
    DiamondVertices(g, 1);
    DiamondDistances(g.adj, 1, dist);
    DiamondTree(g.adj, dist, parent);
    AcyclicChainEnds(parent, 3);
    path := ReconstructPath(parent, 3);
    DiamondPath(parent, path);
  }

  /**
   * `reconstruct_path({1: 2, 2: 1, 3: None}, 3)`: the map has a cycle, but the chain from 3
   * does not enter it, so the call returns `[3]`.
   */
  method CycleBesideChain() returns (path: seq<int>)
    ensures path == [3]
    ensures !Acyclic(map[1 := Some(2), 2 := Some(1), 3 := None])
  {
    var parent := map[1 := Some(2), 2 := Some(1), 3 := None];
    assert Follow(parent, Some(3), 2) == None;
    path := ReconstructPath(parent, 3);
    TwoCycle(parent);
  }

  /** No ranking is lowered both by `1 -> 2` and by `2 -> 1`. */
  lemma TwoCycle(parent: map<int, Option<int>>)
    requires 1 in parent && 2 in parent && parent[1] == Some(2) && parent[2] == Some(1)
    ensures !Acyclic(parent)
  {
    forall rank: map<int, nat>
      ensures !Ranked(parent, rank)
    {
      if 1 in rank && 2 in rank {
        assert !(rank[2] < rank[1] && rank[1] < rank[2]);
      }
    }
  }

  /** The graph with `2 -> 1` of weight 1 has no negative weight. */
  lemma DiamondNonNegative(a: Adj)
    requires Diamond(a, 1)
    ensures NonNegative(a)
  {
    forall e | HasEdge(a, e)
      ensures e.weight >= 0
    {
      DiamondEdges(a, 1, e);
    }
  }

  /**
   * On the graph with `2 -> 1` of weight 1, the links that `dijkstra` promises for the distances
   * 0, 2, 1, 3 are the only ones: 3 under 1, 1 under 2 and 2 under 0.
   */
  lemma DiamondTree(a: Adj, dist: map<int, Dist>, parent: map<int, Option<int>>)
    requires Diamond(a, 1) && dist == map[0 := Fin(0), 1 := Fin(2), 2 := Fin(1), 3 := Fin(3)]
    requires parent.Keys == {0, 1, 2, 3} && parent[0] == None && Tight(a, dist, parent)
    requires forall v :: v in dist && v != 0 && dist[v].Fin? ==> v in parent && parent[v].Some?
    ensures parent == map[0 := None, 1 := Some(2), 2 := Some(0), 3 := Some(1)]
  {
    DiamondLink(a, dist, parent, 1);
    DiamondLink(a, dist, parent, 2);
    DiamondLink(a, dist, parent, 3);
  }

  /** The link of one vertex `v` other than the source. */
  lemma DiamondLink(a: Adj, dist: map<int, Dist>, parent: map<int, Option<int>>, v: int)
    requires Diamond(a, 1) && dist == map[0 := Fin(0), 1 := Fin(2), 2 := Fin(1), 3 := Fin(3)]
    requires v in parent && parent[v].Some? && Tight(a, dist, parent) && 1 <= v <= 3
    ensures parent[v] == map[1 := Some(2), 2 := Some(0), 3 := Some(1)][v]
  {
    var u := parent[v].value;
    var w :| HasEdge(a, Edge(u, v, w)) && dist[v].val == dist[u].val + w;
    DiamondEdges(a, 1, Edge(u, v, w));
  }

  /** The only path `reconstruct_path` can give for those links from 3. */
  lemma DiamondPath(parent: map<int, Option<int>>, path: seq<int>)
    requires parent == map[0 := None, 1 := Some(2), 2 := Some(0), 3 := Some(1)]
    requires |path| > 0 && path[|path| - 1] == 3 && Step(parent, path[0]) == None
    requires forall i :: 0 <= i < |path| - 1 ==> Step(parent, path[i + 1]) == Some(path[i])
    ensures path == [0, 2, 1, 3]
  {
    var n := |path|;
    assert n >= 2 ==> Step(parent, path[n - 1]) == Some(path[n - 2]);
    assert n >= 2 && path[n - 2] == 1;
    assert n >= 3 ==> Step(parent, path[n - 2]) == Some(path[n - 3]);
    assert n >= 3 && path[n - 3] == 2;
    assert n >= 4 ==> Step(parent, path[n - 3]) == Some(path[n - 4]);
    assert n >= 4 && path[n - 4] == 0;
    ChainRoot(parent, path, n - 4);
  }

  /** Along a chain of parent links only the first vertex has no parent. */
  lemma ChainRoot(parent: map<int, Option<int>>, path: seq<int>, j: int)
    requires forall i :: 0 <= i < |path| - 1 ==> Step(parent, path[i + 1]) == Some(path[i])
    requires 0 <= j < |path|
    ensures Step(parent, path[j]) == None ==> j == 0
  {
    if j > 0 {
      assert Step(parent, path[(j - 1) + 1]) == Some(path[j - 1]);
    }
  }

  /**
   * `bellman_ford` from 0 on the graph with `2 -> 1` of weight -10: a negative edge without a
   * negative cycle, so the distances come back, 0, -9, 1, -8.
   */
  method DiamondBellmanFord() returns (r: Outcome)
    ensures r.Found? && r.dist == map[0 := Fin(0), 1 := Fin(-9), 2 := Fin(1), 3 := Fin(-8)]
  {
    var g := BuildDiamond(-10);
    DiamondNoNegativeCycle(g.adj);
    ghost var passes, flags;
    r, passes, flags := BellmanFord.BellmanFord(g, 0);
    DiamondVertices(g, -10);
    DiamondDistances(g.adj, -10, r.dist);
  }

  /** The graph with `2 -> 1` of weight -10 has no closed walk of negative weight from 0. */
  lemma DiamondNoNegativeCycle(a: Adj)
    requires Diamond(a, -10)
    ensures !NegativeCycleFrom(a, 0)
  {
    var t := map[0 := Fin(0), 1 := Fin(-9), 2 := Fin(1), 3 := Fin(-8)];
    DiamondFeasible(a, -10, t);
    NoNegativeCycleFrom(a, 0, t);
  }

  /**
   * On the graph with `2 -> 1` of weight `w <= 3`, the only distances from 0 that are walk
   * weights and that no edge can relax are 0, `1 + w`, 1, `2 + w`.
   */
  lemma DiamondDistances(a: Adj, w: int, dist: map<int, Dist>)
    requires Diamond(a, w) && w <= 3
    requires dist.Keys == {0, 1, 2, 3} && 0 in dist && dist[0] == Fin(0)
    requires Feasible(a, dist) && Witnessed(a, 0, dist)
    ensures dist == map[0 := Fin(0), 1 := Fin(1 + w), 2 := Fin(1), 3 := Fin(2 + w)]
  {
    var t := map[0 := Fin(0), 1 := Fin(1 + w), 2 := Fin(1), 3 := Fin(2 + w)];
    DiamondPinned(a, w, t);
    ShortestUnique(a, 0, dist, t);
  }
}
