/**
 * `DFS` of src/bfs_dfs.py: a recursive depth-first search that stamps each vertex with a
 * discovery time and a finish time from one shared counter, an iterative variant driven by an
 * explicit stack, path recovery through the parent links, and cycle detection with a recursion
 * stack.
 */
module DepthFirst {
  import opened Adjacency
  import opened Walks
  import opened WeightedGraph
  import SimpleGraph
  import opened Distance
  import opened DepthFirstInvariant
  import opened CycleSearch

  /**
   * `_dfs_recursive(vertex)`: stamp the discovery, recurse into every neighbour still unvisited
   * after recording `vertex` as its parent, then stamp the finish. The call for `vertex` and all
   * it opens are closed when it returns; every vertex visited before stays visited.
   */
  method Visit(a: Adj, s: Clock, vertex: int, ghost root: int, ghost univ: set<int>, ghost stack: seq<int>)
    returns (t: Clock)
    requires Entering(a, root, s, vertex, stack)
    requires s.visited <= univ && vertex in univ && Targets(a) <= univ
    ensures Running(a, root, t, stack) && Settled(t.visited, t.parent) && t.visited <= univ
    ensures s.visited <= t.visited && vertex in t.visited && vertex in t.fin
    decreases univ - s.visited, 0
  {
    var cur := Discover(a, s, vertex, root, stack);
    Shrinks(univ, s.visited, cur.visited);
    cur := Explore(a, cur, vertex, root, univ, stack);
    t := Finish(a, cur, vertex, root, stack);
  }

  /** The first step of `_dfs_recursive(vertex)`: mark `vertex` visited, append it to the visit order and stamp its discovery. */
  method Discover(a: Adj, s: Clock, vertex: int, ghost root: int, ghost stack: seq<int>) returns (t: Clock)
    requires Entering(a, root, s, vertex, stack)
    ensures Running(a, root, t, stack + [vertex]) && Settled(t.visited, t.parent)
    ensures t.visited == s.visited + {vertex}
  {
    var d := s.time + 1;
    t := Clock(s.visited + {vertex}, s.parent, s.disc[vertex := d], s.fin, s.order + [vertex], d);
    DiscoverStep(a, root, s, vertex, stack);
  }

  /** The last step of `_dfs_recursive(vertex)`, once every entry of `vertex` has been followed: stamp its finish. */
  method Finish(a: Adj, s: Clock, vertex: int, ghost root: int, ghost stack: seq<int>) returns (t: Clock)
    requires Running(a, root, s, stack + [vertex]) && Settled(s.visited, s.parent)
    requires ExploredUpTo(a, vertex, |Neighbors(a, vertex)|, s.visited)
    ensures Running(a, root, t, stack) && Settled(t.visited, t.parent) && vertex in t.fin
    ensures t.visited == s.visited
  {
    FinishStep(a, root, s, vertex, stack);
    t := s.(fin := s.fin[vertex := s.time + 1], time := s.time + 1);
  }

  /** One step of the loop in `_dfs_recursive`: record `vertex` as the parent of the unvisited `n` and recurse into it. */
  method Descend(a: Adj, cur: Clock, vertex: int, n: int, w: int, ghost root: int, ghost univ: set<int>, ghost stack: seq<int>)
    returns (next: Clock)
    requires Running(a, root, cur, stack + [vertex]) && Settled(cur.visited, cur.parent)
    requires n !in cur.visited && HasEdge(a, Edge(vertex, n, w))
    requires cur.visited <= univ && Targets(a) <= univ
    ensures Running(a, root, next, stack + [vertex]) && Settled(next.visited, next.parent) && next.visited <= univ
    ensures cur.visited <= next.visited && n in next.visited
    decreases univ - cur.visited, 1
  {
    PendStep(a, root, cur, vertex, stack, n, w);
    assert n in Targets(a);
    next := Visit(a, cur.(parent := cur.parent[n := vertex]), n, root, univ, stack + [vertex]);
  }

  /** The loop of `_dfs_recursive` over the entries of `vertex`, descending into each neighbour still unvisited. */
  method Explore(a: Adj, start: Clock, vertex: int, ghost root: int, ghost univ: set<int>, ghost stack: seq<int>)
    returns (cur: Clock)
    requires Running(a, root, start, stack + [vertex]) && Settled(start.visited, start.parent)
    requires start.visited <= univ && Targets(a) <= univ
    ensures Running(a, root, cur, stack + [vertex]) && Settled(cur.visited, cur.parent) && cur.visited <= univ
    ensures start.visited <= cur.visited && ExploredUpTo(a, vertex, |Neighbors(a, vertex)|, cur.visited)
    decreases univ - start.visited, 2
  {
    cur := start;
    var nbrs := Neighbors(a, vertex);
    for i := 0 to |nbrs|
      invariant Running(a, root, cur, stack + [vertex]) && Settled(cur.visited, cur.parent) && cur.visited <= univ
      invariant start.visited <= cur.visited
      invariant ExploredUpTo(a, vertex, i, cur.visited)
    {
      var n := nbrs[i].target;
      if n !in cur.visited {
        assert HasEdge(a, Edge(vertex, n, nbrs[i].weight));
        Shrinks(univ, start.visited, cur.visited);
        ghost var before := cur.visited;
        cur := Descend(a, cur, vertex, n, nbrs[i].weight, root, univ, stack);
        ExploredGrows(a, vertex, i, before, cur.visited);
      }
      ExploredNext(a, vertex, i, cur.visited);
    }
  }

  /**
   * The loop of `find_path` on a finished search: collect `end`, its parent, its parent's
   * parent and so on, until a vertex without a parent or one already collected, then reverse.
   * The repeat guard never fires, since each parent was discovered before its child.
   */
  method TracePath(a: Adj, root: int, visited: set<int>, parent: map<int, int>, disc: map<int, int>, end: int)
    returns (path: seq<int>)
    requires ParentTree(a, root, visited, parent, disc) && end in visited
    ensures path != [] && path[0] == root && path[|path| - 1] == end && Distinct(path)
    ensures forall i :: 0 < i < |path| ==> path[i] in parent && parent[path[i]] == path[i - 1]
    ensures forall i :: 0 < i < |path| ==> Adjacent(a, path[i - 1], path[i])
  {
    var chain: seq<int> := [];
    var current: Option<int> := Some(end);
    var inPath: set<int> := {};
    while current.Some? && current.value !in inPath
      invariant current.Some? ==> current.value in visited && current.value in disc
      invariant chain == [] ==> current == Some(end)
      invariant chain != [] ==> chain[0] == end
      invariant chain != [] ==> current == if chain[|chain| - 1] in parent then Some(parent[chain[|chain| - 1]]) else None
      invariant forall k :: 0 <= k < |chain| ==> chain[k] in visited && chain[k] in disc
      invariant forall k :: 0 <= k < |chain| - 1 ==> chain[k] in parent && parent[chain[k]] == chain[k + 1]
      invariant forall i, j :: 0 <= i < j < |chain| ==> disc[chain[j]] < disc[chain[i]]
      invariant current.Some? ==> forall k :: 0 <= k < |chain| ==> disc[current.value] < disc[chain[k]]
      invariant forall x :: x in inPath <==> x in chain
      invariant current.Some? ==> current.value !in inPath
      decreases if current.Some? then disc[current.value] else 0
    {
      var v := current.value;
      chain := chain + [v];
      inPath := inPath + {v};
      current := if v in parent then Some(parent[v]) else None;
    }
    var last := chain[|chain| - 1];
    assert last == root;
    path := SimpleGraph.Reversed(chain);
    forall i | 0 < i < |path|
      ensures path[i] in parent && parent[path[i]] == path[i - 1] && Adjacent(a, path[i - 1], path[i])
    {
      var k := |chain| - 1 - i;
      assert path[i] == chain[k] && path[i - 1] == chain[k + 1];
    }
    forall i, j | 0 <= i < j < |path|
      ensures path[i] != path[j]
    {
      assert path[i] == chain[|chain| - 1 - i] && path[j] == chain[|chain| - 1 - j];
    }
  }

  /**
   * The inner loop of `search_iterative`: walk the entries of the vertex just popped from last
   * to first, and mark, link and push every neighbour not yet visited.
   */
  method PushNeighbours(a: Adj, start: int, visited: set<int>, parent: map<int, int>, order: seq<int>,
                        stack: seq<int>, ghost univ: set<int>)
    returns (visited': set<int>, parent': map<int, int>, stack': seq<int>)
    requires Pending(a, start, visited, parent, order, stack) && order != []
    requires visited <= univ && Targets(a) <= univ
    ensures Pending(a, start, visited', parent', order, stack') && visited' <= univ
    ensures visited <= visited' && (visited' == visited ==> stack' == stack)
    ensures ExploredUpTo(a, order[|order| - 1], |Neighbors(a, order[|order| - 1])|, visited')
  {
    var vertex := order[|order| - 1];
    var nbrs := Neighbors(a, vertex);
    visited', parent', stack' := visited, parent, stack;
    var j := |nbrs|;
    while j > 0
      invariant 0 <= j <= |nbrs|
      invariant Pending(a, start, visited', parent', order, stack') && visited' <= univ
      invariant visited <= visited' && (visited' == visited ==> stack' == stack)
      invariant ExploredFrom(a, vertex, j, visited')
    {
      j := j - 1;
      var n := nbrs[j].target;
      if n !in visited' {
        assert nbrs[j] in nbrs && n in Targets(a);
        PushStep(a, start, visited', parent', order, stack', n, nbrs[j].weight);
        visited', parent', stack' := visited' + {n}, parent'[n := vertex], stack' + [n];
      }
    }
  }

  /** The loops of `search_iterative(start)`, on local copies of the fields it fills. */
  method IterativeSearch(a: Adj, start: int) returns (visited: set<int>, parent: map<int, int>, order: seq<int>)
    ensures Spanned(a, start, visited, parent, order)
  {
    ghost var univ := Targets(a) + {start};
    visited, parent, order := {start}, map[], [];
    var stack := [start];
    PendingInit(a, start);
    while stack != []
      invariant Pending(a, start, visited, parent, order, stack) && ExploredAll(a, order, visited)
      invariant visited <= univ
      decreases univ - visited, |stack|
    {
      var vertex := stack[|stack| - 1];
      PopStep(a, start, visited, parent, order, stack);
      ghost var before, done := visited, order;
      stack := stack[..|stack| - 1];
      order := order + [vertex];
      visited, parent, stack := PushNeighbours(a, start, visited, parent, order, stack, univ);
      ExploredAllAppend(a, done, vertex, before, visited);
      Shrinks(univ, before, visited);
    }
    PendingDone(a, start, visited, parent, order);
  }

  /** The state of the recursive search held by the object. */
  class DFS {
    const graph: Graph
    var visited: set<int>
    var parent: map<int, int>
    var discoveryTime: map<int, int>
    var finishTime: map<int, int>
    var executionOrder: seq<int>
    var timeCounter: int

    constructor (graph: Graph)
      ensures this.graph == graph
      ensures visited == {} && parent == map[] && discoveryTime == map[] && finishTime == map[]
      ensures executionOrder == [] && timeCounter == 0
    {
      this.graph := graph;
      visited := {};
      parent := map[];
      discoveryTime := map[];
      finishTime := map[];
      executionOrder := [];
      timeCounter := 0;
    }

    /** The fields of the object as one state of the recursive search. */
    function State(): Clock
      reads this
    {
      Clock(visited, parent, discoveryTime, finishTime, executionOrder, timeCounter)
    }

    /** The state a recursive search from `start` leaves behind. */
    ghost predicate Searched(start: int)
      reads this, graph
    {
      Finished(graph.edges, start, State())
    }

    /** `search(start)`: clear the six fields, then `_dfs_recursive(start)`. Returns the visit order. */
    method Search(start: int) returns (order: seq<int>)
      modifies this
      ensures Searched(start) && order == executionOrder
    {
      var a := graph.edges;
      var t := Visit(a, Clock({}, map[], map[], map[], [], 0), start, start, Targets(a) + {start}, []);
      visited, parent, discoveryTime, finishTime, executionOrder, timeCounter :=
        t.visited, t.parent, t.disc, t.fin, t.order, t.time;
      order := t.order;
    }

    /**
     * `search_iterative(start)`: clear the visited set, the parent links and the visit order,
     * then pop a vertex, record it, and push its unvisited neighbours in reverse list order
     * until the stack is empty. The stamps and the counter are left as they were.
     */
    method SearchIterative(start: int) returns (order: seq<int>)
      modifies this
      ensures Spanned(graph.edges, start, visited, parent, executionOrder) && order == executionOrder
      ensures discoveryTime == old(discoveryTime) && finishTime == old(finishTime) && timeCounter == old(timeCounter)
    {
      var seen, links, done := IterativeSearch(graph.edges, start);
      visited, parent, executionOrder := seen, links, done;
      order := done;
    }

    /**
     * `find_path(start, end)`: search from `start`; without a visit of `end`, `(False, [])`;
     * otherwise `(True, path)` with the path from `start` to `end` along the parent links.
     */
    method FindPath(start: int, end: int) returns (found: bool, path: seq<int>)
      modifies this
      ensures Searched(start)
      ensures found <==> end in visited
      ensures found <==> Reachable(graph.edges, start, end)
      ensures !found ==> path == []
      ensures found ==> path != [] && path[0] == start && path[|path| - 1] == end && Distinct(path)
      ensures found ==> forall i :: 0 < i < |path| ==> path[i] in parent && parent[path[i]] == path[i - 1]
      ensures found ==> forall i :: 0 < i < |path| ==> Adjacent(graph.edges, path[i - 1], path[i])
    {
      var _ := Search(start);
      SearchReaches(graph.edges, start, State(), end);
      if end !in visited {
        return false, [];
      }
      found := true;
      FinishedStamps(graph.edges, start, State());
      path := TracePath(graph.edges, start, visited, parent, discoveryTime, end);
    }

    /**
     * `detect_cycle()`: search from each of `0 .. vertices - 1` not yet visited. True exactly
     * when some vertex reachable from the range lies on a non-empty walk back to itself. The
     * fields are left alone.
     */
    method DetectCycle() returns (found: bool)
      ensures found ==> HasCycle(graph.edges)
      ensures found <==> !NoCycleReachable(graph.edges, graph.vertices)
    {
      var a := graph.edges;
      ghost var range := seq(if graph.vertices < 0 then 0 else graph.vertices, j => j);
      ghost var univ := Targets(a) + set y | y in range;
      var visited: set<int> := {};
      var rec: set<int> := {};
      ghost var rank: map<int, nat> := map[];
      ghost var count: nat := 0;
      var x := 0;
      while x < graph.vertices
        invariant Ranked(a, visited, rec, rank, count) && rec == {} && visited <= univ
        invariant forall y :: 0 <= y < x ==> y in visited
      {
        if x !in visited {
          assert range[x] == x;
          found, visited, rec, rank, count := CycleFrom(a, visited, rec, x, map[], rank, count, univ, x, graph.vertices);
          if found {
            return;
          }
        }
        x := x + 1;
      }
      forall y, p, z, c | 0 <= y < graph.vertices && IsWalk(a, p, y, z) && IsWalk(a, c, z, z)
        ensures c == []
      {
        NoCycleFrom(a, visited, rank, count, y, p, z, c);
      }
      return false;
    }
  }
}
