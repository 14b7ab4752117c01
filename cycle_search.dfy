/**
 * The search behind `detect_cycle` of `DFS` in src/bfs_dfs.py (whose outer loop is
 * `DepthFirst.DFS.DetectCycle`): a depth-first search from every vertex
 * `0 .. vertices - 1` not yet visited, keeping the set of vertices whose calls are open (the
 * recursion stack). A stored edge into a vertex of that set closes a walk; an edge into a
 * vertex already left leads nowhere new. The sets `visited` and `rec_stack`, local to
 * `detect_cycle` and shared by its inner function, are threaded through the calls as values.
 *
 * The proof carries two ghost certificates. For every open vertex, a walk from it to the vertex
 * being explored: an edge into an open vertex then closes a non-empty walk. For every vertex
 * left, a rank above the ranks of all its neighbours, which were all left before it: ranks fall
 * along every edge out of a vertex left, so no closed walk runs through one.
 */
module CycleSearch {
  import opened Adjacency
  import opened Walks
  import opened WeightedGraph

  /** Some non-empty walk of stored edges returns to where it started. */
  ghost predicate HasCycle(a: Adj)
  {
    exists x, c :: c != [] && IsWalk(a, c, x, x)
  }

  /** `u` has been left, and so have all its neighbours, each with a smaller rank. */
  ghost predicate Closes(a: Adj, u: int, rank: map<int, nat>)
  {
    && u in rank
    && forall j :: 0 <= j < |Neighbors(a, u)| ==>
         Neighbors(a, u)[j].target in rank && rank[Neighbors(a, u)[j].target] < rank[u]
  }

  /**
   * The open vertices are visited; the ranked vertices are exactly the visited ones no longer
   * open, each ranked below `count` and closing over its neighbours.
   */
  ghost predicate Ranked(a: Adj, visited: set<int>, rec: set<int>, rank: map<int, nat>, count: nat)
  {
    && rec <= visited
    && (forall u :: u in rank <==> u in visited && u !in rec)
    && (forall u :: u in rank ==> rank[u] < count)
    && (forall u :: u in rank ==> Closes(a, u, rank))
  }

  /** Every open vertex has a walk to `vertex`. */
  ghost predicate Trail(a: Adj, rec: set<int>, back: map<int, seq<Edge>>, vertex: int)
  {
    forall x :: x in rec ==> x in back && IsWalk(a, back[x], x, vertex)
  }

  /** `rank'` keeps every rank of `rank`. */
  ghost predicate Extends(rank: map<int, nat>, rank': map<int, nat>)
  {
    forall u :: u in rank ==> u in rank' && rank'[u] == rank[u]
  }

  /** No vertex reachable from `0 .. n - 1` lies on a non-empty closed walk. */
  ghost predicate NoCycleReachable(a: Adj, n: int)
  {
    forall y, p, z, c :: 0 <= y < n && IsWalk(a, p, y, z) && IsWalk(a, c, z, z) ==> c == []
  }

  /**
   * An edge from the explored vertex into an open vertex closes a non-empty walk, which the
   * open vertex `root` of `0 .. bound - 1` reaches.
   */
  lemma CycleAt(a: Adj, rec: set<int>, back: map<int, seq<Edge>>, vertex: int, n: int, w: int, root: int, bound: int)
    requires Trail(a, rec, back, vertex) && n in rec && HasEdge(a, Edge(vertex, n, w))
    requires root in rec && 0 <= root < bound
    ensures HasCycle(a) && !NoCycleReachable(a, bound)
  {
    var e := Edge(vertex, n, w);
    WalkExtend(a, back[n], n, vertex, e);
    WalkExtend(a, back[root], root, vertex, e);
    assert back[n] + [e] != [];
    assert IsWalk(a, back[root] + [e], root, n) && IsWalk(a, back[n] + [e], n, n);
  }

  /** Stepping along an edge from the explored vertex extends every open vertex's walk. */
  lemma TrailExtend(a: Adj, rec: set<int>, back: map<int, seq<Edge>>, vertex: int, e: Edge)
    requires Trail(a, rec, back, vertex) && HasEdge(a, e) && e.from == vertex
    ensures Trail(a, rec, map x | x in rec :: back[x] + [e], e.to)
  {
    forall x | x in rec
      ensures IsWalk(a, back[x] + [e], x, e.to)
    {
      WalkExtend(a, back[x], x, vertex, e);
    }
  }

  /** Opening `vertex`: it is visited and on the recursion stack, with the empty walk to itself. */
  lemma OpenStep(a: Adj, visited: set<int>, rec: set<int>, rank: map<int, nat>, count: nat,
                 back: map<int, seq<Edge>>, vertex: int)
    requires Ranked(a, visited, rec, rank, count) && Trail(a, rec, back, vertex) && vertex !in visited
    ensures Ranked(a, visited + {vertex}, rec + {vertex}, rank, count)
    ensures Trail(a, rec + {vertex}, back[vertex := []], vertex)
  {
    assert IsWalk(a, [], vertex, vertex);
  }

  /** Leaving `vertex`, all of whose neighbours have been left, ranks it at `count`. */
  lemma LeaveStep(a: Adj, visited: set<int>, rec: set<int>, rank: map<int, nat>, count: nat, vertex: int)
    requires Ranked(a, visited, rec, rank, count) && vertex in rec
    requires forall j :: 0 <= j < |Neighbors(a, vertex)| ==> Neighbors(a, vertex)[j].target in rank
    ensures Ranked(a, visited, rec - {vertex}, rank[vertex := count], count + 1)
    ensures Extends(rank, rank[vertex := count])
  {
    var rank' := rank[vertex := count];
    forall u | u in rank'
      ensures Closes(a, u, rank')
    {
      if u != vertex {
        assert Closes(a, u, rank);
      }
    }
  }

  /** Ranks fall strictly along every non-empty walk from a ranked vertex, which stays among ranked vertices. */
  lemma {:induction false} RankFalls(a: Adj, rank: map<int, nat>, c: seq<Edge>, x: int, y: int)
    requires forall u :: u in rank ==> Closes(a, u, rank)
    requires x in rank && IsWalk(a, c, x, y)
    ensures y in rank && (c != [] ==> rank[y] < rank[x])
    decreases |c|
  {
    if c != [] {
      var init, e := c[..|c| - 1], c[|c| - 1];
      var z := if init == [] then x else init[|init| - 1].to;
      assert IsWalk(a, init, x, z) by {
        if init != [] {
          assert init[0] == c[0];
        }
      }
      if init != [] {
        assert c[|c| - 2].to == c[|c| - 1].from;
      }
      RankFalls(a, rank, init, x, z);
      assert HasEdge(a, e);
      var nbrs := Neighbors(a, z);
      var j :| 0 <= j < |nbrs| && nbrs[j] == Entry(e.to, e.weight);
      assert Closes(a, z, rank);
    }
  }

  /** With every visited vertex ranked, no walk from a visited vertex reaches a closed non-empty walk. */
  lemma NoCycleFrom(a: Adj, visited: set<int>, rank: map<int, nat>, count: nat, y: int, p: seq<Edge>, z: int, c: seq<Edge>)
    requires Ranked(a, visited, {}, rank, count) && y in visited
    requires IsWalk(a, p, y, z) && IsWalk(a, c, z, z)
    ensures c == []
  {
    RankFalls(a, rank, p, y, z);
    RankFalls(a, rank, c, z, z);
  }

  /**
   * In a symmetric store (an undirected graph) a stored edge and its reverse make a closed walk
   * of two edges, so a search that reaches a vertex with a neighbour reports a cycle.
   */
  lemma UndirectedEdgeIsCycle(a: Adj, e: Edge)
    requires Symmetric(a) && HasEdge(a, e)
    ensures IsWalk(a, [e, Edge(e.to, e.from, e.weight)], e.from, e.from) && HasCycle(a)
  {
    var back := Edge(e.to, e.from, e.weight);
    assert Occurrences(a, e.from, Entry(e.to, e.weight)) > 0;
    assert Occurrences(a, e.to, Entry(e.from, e.weight)) > 0;
    assert HasEdge(a, back);
    assert IsWalk(a, [e, back], e.from, e.from);
  }

  /** A self-loop at a vertex of the range is a cycle the search must report. */
  lemma SelfLoopDetected(a: Adj, n: int, x: int, w: int)
    requires HasEdge(a, Edge(x, x, w)) && 0 <= x < n
    ensures HasCycle(a) && !NoCycleReachable(a, n)
  {
    assert IsWalk(a, [], x, x);
    assert IsWalk(a, [Edge(x, x, w)], x, x);
  }

  /** In a symmetric store, a stored edge leaving a vertex of the range makes the search report a cycle. */
  lemma UndirectedEdgeDetected(a: Adj, n: int, e: Edge)
    requires Symmetric(a) && HasEdge(a, e) && 0 <= e.from < n
    ensures !NoCycleReachable(a, n)
  {
    UndirectedEdgeIsCycle(a, e);
    assert IsWalk(a, [], e.from, e.from);
  }

  /**
   * `has_cycle_util(vertex)`: mark `vertex` visited and open, follow its entries, and either
   * report a cycle or close it. A reported cycle is a real one that `root`, a vertex of
   * `0 .. bound - 1` that is open or is `vertex` itself, reaches; otherwise `vertex` and all it
   * reached are ranked, and the recursion stack is as it was.
   */
  method CycleFrom(a: Adj, visited: set<int>, rec: set<int>, vertex: int, ghost back: map<int, seq<Edge>>,
                   ghost rank: map<int, nat>, ghost count: nat, ghost univ: set<int>, ghost root: int, ghost bound: int)
    returns (found: bool, visited': set<int>, rec': set<int>, ghost rank': map<int, nat>, ghost count': nat)
    requires Ranked(a, visited, rec, rank, count) && Trail(a, rec, back, vertex) && vertex !in visited
    requires visited <= univ && vertex in univ && Targets(a) <= univ
    requires (root in rec || root == vertex) && 0 <= root < bound
    ensures found ==> HasCycle(a) && !NoCycleReachable(a, bound)
    ensures !found ==> Ranked(a, visited', rec', rank', count') && rec' == rec && vertex in rank'
    ensures !found ==> Extends(rank, rank')
    ensures visited <= visited' <= univ
    decreases univ - visited, 0
  {
    OpenStep(a, visited, rec, rank, count, back, vertex);
    Shrinks(univ, visited, visited + {vertex});
    found, visited', rec', rank', count' :=
      CycleNeighbours(a, visited + {vertex}, rec + {vertex}, vertex, back[vertex := []], rank, count, univ, root, bound);
    if !found {
      LeaveStep(a, visited', rec', rank', count', vertex);
      rec' := rec' - {vertex};
      rank', count' := rank'[vertex := count'], count' + 1;
    }
  }

  /** The loop of `has_cycle_util(vertex)` over the entries of `vertex`, which is open, as is `root`. */
  method CycleNeighbours(a: Adj, visited: set<int>, rec: set<int>, vertex: int, ghost back: map<int, seq<Edge>>,
                         ghost rank: map<int, nat>, ghost count: nat, ghost univ: set<int>, ghost root: int, ghost bound: int)
    returns (found: bool, visited': set<int>, rec': set<int>, ghost rank': map<int, nat>, ghost count': nat)
    requires Ranked(a, visited, rec, rank, count) && Trail(a, rec, back, vertex) && vertex in rec
    requires visited <= univ && Targets(a) <= univ
    requires root in rec && 0 <= root < bound
    ensures found ==> HasCycle(a) && !NoCycleReachable(a, bound)
    ensures !found ==> Ranked(a, visited', rec', rank', count') && rec' == rec && Extends(rank, rank')
    ensures !found ==> forall j :: 0 <= j < |Neighbors(a, vertex)| ==> Neighbors(a, vertex)[j].target in rank'
    ensures visited <= visited' <= univ
    decreases univ - visited, 1
  {
    var nbrs := Neighbors(a, vertex);
    found, visited', rec', rank', count' := false, visited, rec, rank, count;
    var i := 0;
    while i < |nbrs|
      invariant 0 <= i <= |nbrs|
      invariant Ranked(a, visited', rec, rank', count') && rec' == rec && Extends(rank, rank')
      invariant visited <= visited' <= univ
      invariant forall j :: 0 <= j < i ==> nbrs[j].target in rank'
    {
      var n := nbrs[i].target;
      ghost var e := Edge(vertex, n, nbrs[i].weight);
      assert HasEdge(a, e);
      if n !in visited' {
        TrailExtend(a, rec, back, vertex, e);
        Shrinks(univ, visited, visited');
        assert n in Targets(a);
        ghost var rank0 := rank';
        found, visited', rec', rank', count' := CycleFrom(a, visited', rec, n, map x | x in rec :: back[x] + [e], rank', count', univ, root, bound);
        if found {
          return;
        }
        assert Extends(rank, rank') by {
          assert Extends(rank0, rank');
        }
      } else if n in rec {
        CycleAt(a, rec, back, vertex, n, nbrs[i].weight, root, bound);
        return true, visited', rec', rank', count';
      }
      i := i + 1;
    }
  }
}
