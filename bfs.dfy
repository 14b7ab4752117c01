/**
 * `BFS` of src/bfs_dfs.py: a first-in first-out search from a start vertex over the weighted
 * graph's adjacency lists, recording for each visited vertex its parent and its hop distance.
 * The queue hands vertices out in the order they were discovered, level after level, so the
 * recorded hop distances are the least numbers of edges of any walk from the start.
 */
module BreadthFirst {
  import opened Distance
  import opened Adjacency
  import opened Walks
  import opened WeightedGraph
  import SimpleGraph

  /** Hop distances never decrease along `s`. */
  ghost predicate Monotone(s: seq<int>, distance: map<int, nat>)
  {
    forall i, j :: 0 <= i < j < |s| ==> s[i] in distance && s[j] in distance && distance[s[i]] <= distance[s[j]]
  }

  /** Every vertex of `s` is at most one level beyond level `d`. */
  ghost predicate Close(s: seq<int>, distance: map<int, nat>, d: int)
  {
    forall j :: 0 <= j < |s| ==> s[j] in distance && distance[s[j]] <= d + 1
  }

  /**
   * The first `n` entries of `u`'s list lead to visited vertices at most one level beyond `u`:
   * the work of the inner loop once it has passed them.
   */
  ghost predicate Explored(a: Adj, u: int, n: int, visited: set<int>, distance: map<int, nat>)
  {
    forall j :: 0 <= j < n && j < |Neighbors(a, u)| ==>
      && Neighbors(a, u)[j].target in visited && u in distance && Neighbors(a, u)[j].target in distance
      && distance[Neighbors(a, u)[j].target] <= distance[u] + 1
  }

  /**
   * The maps agree with the visited set; the start is its own root at level 0; every other
   * visited vertex hangs under a visited neighbour one level up.
   */
  ghost predicate Labelled(a: Adj, start: int, visited: set<int>, parent: map<int, Option<int>>, distance: map<int, nat>)
  {
    && (forall v :: v in parent <==> v in visited)
    && (forall v :: v in distance <==> v in visited)
    && start in visited && parent[start] == None && distance[start] == 0
    && (forall v {:trigger parent[v]} :: v in visited && v != start ==>
          && parent[v].Some? && parent[v].value in visited
          && distance[v] == distance[parent[v].value] + 1
          && Adjacent(a, parent[v].value, v))
  }

  /**
   * The state at the head of the outer loop: the discovered vertices, the dequeued ones followed
   * by the queue, start with `start`, are distinct, are the visited set, and have non-decreasing
   * levels at most one beyond the queue's head; each dequeued vertex has been explored.
   */
  ghost predicate Outer(a: Adj, start: int, univ: set<int>, order: seq<int>, queue: seq<int>, disc: seq<int>,
                        visited: set<int>, parent: map<int, Option<int>>, distance: map<int, nat>)
  {
    && disc == order + queue
    && Labelled(a, start, visited, parent, distance)
    && disc != [] && disc[0] == start && Distinct(disc)
    && (forall v :: v in visited <==> v in disc)
    && Monotone(disc, distance)
    && (queue != [] ==> queue[0] in distance && Close(disc, distance, distance[queue[0]]))
    && (forall k :: 0 <= k < |order| ==> Explored(a, order[k], |Neighbors(a, order[k])|, visited, distance))
    && visited <= univ
  }

  /** The state inside the inner loop for the last dequeued vertex, after `i` of its entries. */
  ghost predicate Inner(a: Adj, start: int, univ: set<int>, order: seq<int>, queue: seq<int>, disc: seq<int>,
                        visited: set<int>, parent: map<int, Option<int>>, distance: map<int, nat>, i: nat)
  {
    && disc == order + queue
    && order != [] && order[|order| - 1] in distance
    && Labelled(a, start, visited, parent, distance)
    && disc[0] == start && Distinct(disc)
    && (forall v :: v in visited <==> v in disc)
    && Monotone(disc, distance)
    && Close(disc, distance, distance[order[|order| - 1]])
    && (forall k :: 0 <= k < |order| - 1 ==> Explored(a, order[k], |Neighbors(a, order[k])|, visited, distance))
    && Explored(a, order[|order| - 1], i, visited, distance)
    && visited <= univ
  }

  /**
   * What a finished search leaves: the visit order starts with `start`, repeats nothing, holds
   * exactly the visited vertices with non-decreasing levels, and every entry of every visited
   * vertex leads to a visited vertex at most one level further.
   */
  ghost predicate Tree(a: Adj, start: int, order: seq<int>, visited: set<int>,
                       parent: map<int, Option<int>>, distance: map<int, nat>)
  {
    && Labelled(a, start, visited, parent, distance)
    && order != [] && order[0] == start && Distinct(order)
    && (forall v :: v in visited <==> v in order)
    && Monotone(order, distance)
    && (forall u :: u in visited ==> Explored(a, u, |Neighbors(a, u)|, visited, distance))
  }

  lemma InitStep(a: Adj, start: int)
    ensures Outer(a, start, Targets(a) + {start}, [], [start], [start], {start}, map[start := None], map[start := 0])
  {
    assert [] + [start] == [start];
  }

  lemma PopStep(a: Adj, start: int, univ: set<int>, order: seq<int>, queue: seq<int>, disc: seq<int>,
                visited: set<int>, parent: map<int, Option<int>>, distance: map<int, nat>)
    requires Outer(a, start, univ, order, queue, disc, visited, parent, distance) && queue != []
    ensures Inner(a, start, univ, order + [queue[0]], queue[1..], disc, visited, parent, distance, 0)
  {
    PopSeq(order, queue);
  }

  lemma PopSeq(order: seq<int>, queue: seq<int>)
    requires queue != []
    ensures (order + [queue[0]]) + queue[1..] == order + queue
  {
    assert queue == [queue[0]] + queue[1..];
  }

  lemma PushSeq(order: seq<int>, queue: seq<int>, v: int)
    ensures (order + queue) + [v] == order + (queue + [v])
  {
  }

  lemma VisitStep(a: Adj, start: int, univ: set<int>, order: seq<int>, queue: seq<int>, disc: seq<int>,
                  visited: set<int>, parent: map<int, Option<int>>, distance: map<int, nat>, i: nat, u: int, v: int)
    requires Inner(a, start, univ, order, queue, disc, visited, parent, distance, i)
    requires u == order[|order| - 1] && i < |Neighbors(a, u)| && v == Neighbors(a, u)[i].target
    requires v !in visited && v in univ
    ensures u in distance
    ensures Inner(a, start, univ, order, queue + [v], disc + [v], visited + {v}, parent[v := Some(u)],
                  distance[v := distance[u] + 1], i + 1)
  {
    var nbrs := Neighbors(a, u);
    var disc' := disc + [v];
    PushSeq(order, queue, v);
    var visited', parent', distance' := visited + {v}, parent[v := Some(u)], distance[v := distance[u] + 1];
    assert HasEdge(a, Edge(u, v, nbrs[i].weight));
    assert Labelled(a, start, visited', parent', distance');
    assert Distinct(disc') by {
      forall j | 0 <= j < |disc|
        ensures disc'[j] != v
      {
        assert disc'[j] == disc[j] && disc[j] in visited;
      }
    }
    assert Monotone(disc', distance') by {
      forall j, k | 0 <= j < k < |disc'|
        ensures disc'[j] in distance' && disc'[k] in distance' && distance'[disc'[j]] <= distance'[disc'[k]]
      {
        assert disc'[j] == disc[j] && disc[j] in visited;
        if k < |disc| {
          assert disc'[k] == disc[k] && disc[k] in visited;
        }
      }
    }
    assert Close(disc', distance', distance'[u]) by {
      forall j | 0 <= j < |disc'|
        ensures disc'[j] in distance' && distance'[disc'[j]] <= distance'[u] + 1
      {
        if j < |disc| {
          assert disc'[j] == disc[j] && disc[j] in visited;
        }
      }
    }
    forall k | 0 <= k < |order|
      ensures Explored(a, order[k], if k < |order| - 1 then |Neighbors(a, order[k])| else i + 1, visited', distance')
    {
      assert order[k] == disc[k] && disc[k] in visited;
    }
  }

  lemma SkipStep(a: Adj, start: int, univ: set<int>, order: seq<int>, queue: seq<int>, disc: seq<int>,
                 visited: set<int>, parent: map<int, Option<int>>, distance: map<int, nat>, i: nat, u: int, v: int)
    requires Inner(a, start, univ, order, queue, disc, visited, parent, distance, i)
    requires u == order[|order| - 1] && i < |Neighbors(a, u)| && v == Neighbors(a, u)[i].target
    requires v in visited
    ensures Inner(a, start, univ, order, queue, disc, visited, parent, distance, i + 1)
  {
    assert v in disc;
    var j :| 0 <= j < |disc| && disc[j] == v;
    assert distance[v] <= distance[u] + 1;
  }

  lemma DoneStep(a: Adj, start: int, univ: set<int>, order: seq<int>, queue: seq<int>, disc: seq<int>,
                 visited: set<int>, parent: map<int, Option<int>>, distance: map<int, nat>)
    requires order != [] && Inner(a, start, univ, order, queue, disc, visited, parent, distance, |Neighbors(a, order[|order| - 1])|)
    ensures Outer(a, start, univ, order, queue, disc, visited, parent, distance)
  {
    if queue != [] {
      assert disc[|order| - 1] == order[|order| - 1] && disc[|order|] == queue[0];
    }
  }

  lemma FinishStep(a: Adj, start: int, univ: set<int>, order: seq<int>, disc: seq<int>,
                   visited: set<int>, parent: map<int, Option<int>>, distance: map<int, nat>)
    requires Outer(a, start, univ, order, [], disc, visited, parent, distance)
    ensures Tree(a, start, order, visited, parent, distance)
  {
    assert disc == order by {
      assert order + [] == order;
    }
    forall u | u in visited
      ensures Explored(a, u, |Neighbors(a, u)|, visited, distance)
    {
      assert u in order;
      var k :| 0 <= k < |order| && order[k] == u;
    }
  }

  /** A vertex of a neighbour list of a stored key is a target of the store. */
  lemma InTargets(a: Adj, u: int, i: nat)
    requires i < |Neighbors(a, u)|
    ensures Neighbors(a, u)[i].target in Targets(a)
  {
  }

  /**
   * The parent chain of a visited vertex `v` is a walk from the start with exactly
   * `distance[v]` edges.
   */
  lemma {:induction false} TreePath(a: Adj, start: int, order: seq<int>, visited: set<int>,
                                    parent: map<int, Option<int>>, distance: map<int, nat>, v: int)
    returns (p: seq<Edge>)
    requires Tree(a, start, order, visited, parent, distance) && v in visited
    ensures IsWalk(a, p, start, v) && |p| == distance[v]
    decreases distance[v]
  {
    if v == start {
      return [];
    }
    var u := parent[v].value;
    var w :| HasEdge(a, Edge(u, v, w));
    var q := TreePath(a, start, order, visited, parent, distance, u);
    WalkExtend(a, q, start, u, Edge(u, v, w));
    p := q + [Edge(u, v, w)];
  }

  /** Every walk from the start ends at a visited vertex whose level is at most the walk's length. */
  lemma {:induction false} WalkVisited(a: Adj, start: int, order: seq<int>, visited: set<int>,
                                       parent: map<int, Option<int>>, distance: map<int, nat>, p: seq<Edge>, t: int)
    requires Tree(a, start, order, visited, parent, distance) && IsWalk(a, p, start, t)
    ensures t in visited && distance[t] <= |p|
    decreases |p|
  {
    if p != [] {
      var init, e := p[..|p| - 1], p[|p| - 1];
      var s := if init == [] then start else init[|init| - 1].to;
      assert IsWalk(a, init, start, s) by {
        if init != [] {
          assert init[0] == p[0];
        }
      }
      if init != [] {
        assert e.from == s by {
          assert p[|p| - 2].to == p[|p| - 1].from;
        }
      }
      WalkVisited(a, start, order, visited, parent, distance, init, s);
      assert HasEdge(a, e);
      var nbrs := Neighbors(a, e.from);
      var j :| 0 <= j < |nbrs| && nbrs[j] == Entry(e.to, e.weight);
      assert Explored(a, e.from, |nbrs|, visited, distance);
    }
  }

  /**
   * After a search, the visited vertices are exactly those reachable from the start, and the
   * level of each is the least number of edges of a walk reaching it.
   */
  lemma SearchIsComplete(a: Adj, start: int, order: seq<int>, visited: set<int>,
                         parent: map<int, Option<int>>, distance: map<int, nat>, v: int)
    requires Tree(a, start, order, visited, parent, distance)
    ensures v in visited <==> Reachable(a, start, v)
    ensures v in visited ==> exists p :: IsWalk(a, p, start, v) && |p| == distance[v]
    ensures v in visited ==> forall p :: IsWalk(a, p, start, v) ==> distance[v] <= |p|
  {
    if v in visited {
      var p := TreePath(a, start, order, visited, parent, distance, v);
      forall q | IsWalk(a, q, start, v)
        ensures distance[v] <= |q|
      {
        WalkVisited(a, start, order, visited, parent, distance, q, v);
      }
    }
    if Reachable(a, start, v) {
      var p :| IsWalk(a, p, start, v);
      WalkVisited(a, start, order, visited, parent, distance, p, v);
    }
  }

  /** The vertices of `order` at level `d`, in the order of `order`. */
  ghost function AtLevel(order: seq<int>, distance: map<int, nat>, d: int): (r: seq<int>)
    requires forall v :: v in order ==> v in distance
    ensures forall v :: v in r <==> v in order && distance[v] == d
  {
    if order == [] then []
    else
      var init, last := order[..|order| - 1], order[|order| - 1];
      assert order == init + [last];
      AtLevel(init, distance, d) + (if distance[last] == d then [last] else [])
  }

  /**
   * `path` runs from `start` to `end` through the parent links, one level per step, so it has
   * `distance[end] + 1` vertices.
   */
  ghost predicate ChainPath(start: int, end: int, path: seq<int>, parent: map<int, Option<int>>, distance: map<int, nat>)
  {
    && end in distance && |path| == distance[end] + 1 && path[0] == start && path[|path| - 1] == end
    && (forall i :: 0 <= i < |path| ==> path[i] in distance && distance[path[i]] == i)
    && (forall i :: 0 < i < |path| ==> path[i] in parent && parent[path[i]] == Some(path[i - 1]))
  }

  /** Follows the parent links from `end` back to the start and reverses the chain. */
  method PathTo(a: Adj, start: int, visited: set<int>, parent: map<int, Option<int>>, distance: map<int, nat>, end: int)
    returns (path: seq<int>)
    requires Labelled(a, start, visited, parent, distance) && end in visited
    ensures ChainPath(start, end, path, parent, distance)
    ensures forall i :: 0 < i < |path| ==> Adjacent(a, path[i - 1], path[i])
  {
    var chain: seq<int> := [end];
    var current := parent[end];
    while current.Some?
      invariant chain != [] && chain[0] == end
      invariant forall k :: 0 <= k < |chain| ==>
        chain[k] in visited && chain[k] in parent && chain[k] in distance && distance[chain[k]] == distance[end] - k
      invariant forall k :: 0 <= k < |chain| - 1 ==> parent[chain[k]] == Some(chain[k + 1])
      invariant current == parent[chain[|chain| - 1]]
      decreases distance[chain[|chain| - 1]]
    {
      var v := chain[|chain| - 1];
      assert v in visited && v != start;
      var c := current.value;
      assert c in visited && distance[c] + 1 == distance[v];
      chain := chain + [c];
      current := if c in parent then parent[c] else None;
    }
    assert chain[|chain| - 1] == start;
    path := SimpleGraph.Reversed(chain);
    forall i | 0 <= i < |path|
      ensures path[i] in distance && distance[path[i]] == i
    {
      assert path[i] == chain[|chain| - 1 - i];
    }
    forall i | 0 < i < |path|
      ensures path[i] in parent && parent[path[i]] == Some(path[i - 1]) && Adjacent(a, path[i - 1], path[i])
    {
      var k := |chain| - 1 - i;
      assert path[i] == chain[k] && path[i - 1] == chain[k + 1];
    }
  }

  /** The level dictionary the loop of `get_level_order` builds from `s`, one vertex at a time. */
  ghost function Group(s: seq<int>, distance: map<int, nat>): map<int, seq<int>>
    requires forall v :: v in s ==> v in distance
  {
    if s == [] then map[]
    else
      var init, last := s[..|s| - 1], s[|s| - 1];
      assert forall v :: v in init ==> v in s;
      var g := Group(init, distance);
      g[distance[last] := (if distance[last] in g then g[distance[last]] else []) + [last]]
  }

  /** A level is a key of the dictionary exactly when it occurs, and maps to its vertices in order. */
  lemma {:induction false} GroupAtLevel(s: seq<int>, distance: map<int, nat>, d: int)
    requires forall v :: v in s ==> v in distance
    ensures d in Group(s, distance) <==> AtLevel(s, distance, d) != []
    ensures d in Group(s, distance) ==> Group(s, distance)[d] == AtLevel(s, distance, d)
  {
    if s != [] {
      var init, last := s[..|s| - 1], s[|s| - 1];
      assert s == init + [last];
      assert forall v :: v in init ==> v in s;
      GroupAtLevel(init, distance, d);
    }
  }

  /** The loop of `get_level_order`: the level dictionary, and its keys in order of first appearance. */
  method BuildLevels(order: seq<int>, distance: map<int, nat>) returns (byLevel: map<int, seq<int>>, keys: seq<int>)
    requires forall v :: v in order ==> v in distance
    ensures byLevel == Group(order, distance)
    ensures forall d :: d in byLevel <==> d in keys
  {
    byLevel, keys := map[], [];
    for k := 0 to |order|
      invariant forall v :: v in order[..k] ==> v in distance
      invariant byLevel == Group(order[..k], distance)
      invariant forall d :: d in byLevel <==> d in keys
    {
      var vertex := order[k];
      var dist := distance[vertex];
      assert order[..k + 1][..k] == order[..k];
      if dist !in byLevel {
        byLevel := byLevel[dist := []];
        keys := keys + [dist];
      }
      byLevel := byLevel[dist := byLevel[dist] + [vertex]];
    }
    assert order[..|order|] == order;
  }

  /**
   * Groups `order` by level: one `(level, vertices)` pair per level that occurs, the levels
   * ascending, the vertices of each in the order of `order`.
   */
  method GroupByLevel(order: seq<int>, distance: map<int, nat>) returns (levels: seq<(int, seq<int>)>)
    requires forall v :: v in order ==> v in distance
    ensures forall i, j :: 0 <= i < j < |levels| ==> levels[i].0 < levels[j].0
    ensures forall i :: 0 <= i < |levels| ==> levels[i].1 != [] && levels[i].1 == AtLevel(order, distance, levels[i].0)
    ensures forall v :: v in order ==> exists i :: 0 <= i < |levels| && levels[i].0 == distance[v]
  {
    var byLevel, keys := BuildLevels(order, distance);
    forall d
      ensures d in byLevel <==> AtLevel(order, distance, d) != []
      ensures d in byLevel ==> byLevel[d] == AtLevel(order, distance, d)
    {
      GroupAtLevel(order, distance, d);
    }
    var sorted := SortedDistinct(keys);
    forall i | 0 <= i < |sorted|
      ensures sorted[i] in byLevel
    {
      assert sorted[i] in sorted;
    }
    levels := seq(|sorted|, i requires 0 <= i < |sorted| => (sorted[i], byLevel[sorted[i]]));
    forall i | 0 <= i < |levels|
      ensures levels[i].1 != [] && levels[i].1 == AtLevel(order, distance, levels[i].0)
    {
      assert levels[i] == (sorted[i], byLevel[sorted[i]]);
    }
    forall v | v in order
      ensures exists i :: 0 <= i < |levels| && levels[i].0 == distance[v]
    {
      assert v in AtLevel(order, distance, distance[v]);
      assert distance[v] in keys;
      var i :| 0 <= i < |sorted| && sorted[i] == distance[v];
      assert levels[i].0 == distance[v];
    }
  }

  class BFS {
    const graph: Graph
    var visited: set<int>
    var parent: map<int, Option<int>>
    var distance: map<int, nat>
    var executionOrder: seq<int>

    constructor (graph: Graph)
      ensures this.graph == graph
      ensures visited == {} && parent == map[] && distance == map[] && executionOrder == []
    {
      this.graph := graph;
      visited := {};
      parent := map[];
      distance := map[];
      executionOrder := [];
    }

    /** The state a search from `start` leaves behind. */
    ghost predicate Searched(start: int)
      reads this, graph
    {
      Tree(graph.edges, start, executionOrder, visited, parent, distance)
    }

    /**
     * `search(start)`: dequeue, record, and enqueue every unvisited neighbour with its parent
     * and the next level. Returns the visit order.
     */
    method Search(start: int) returns (order: seq<int>)
      requires graph.Valid()
      modifies this
      ensures Searched(start) && order == executionOrder
    {
      var seen, links, levels, done := Explore(start);
      visited, parent, distance, executionOrder := seen, links, levels, done;
      order := done;
    }

    /** The loops of `search(start)`, on local copies of the four fields it fills. */
    method Explore(start: int) returns (seen: set<int>, links: map<int, Option<int>>, levels: map<int, nat>, done: seq<int>)
      requires graph.Valid()
      ensures Tree(graph.edges, start, done, seen, links, levels)
    {
      var a := graph.edges;
      ghost var univ := Targets(a) + {start};
      seen, links, levels, done := {start}, map[start := None], map[start := 0], [];
      var queue := [start];
      ghost var disc := [start];
      InitStep(a, start);
      while queue != []
        invariant Outer(a, start, univ, done, queue, disc, seen, links, levels)
        decreases univ - seen, |queue|
      {
        var vertex := queue[0];
        PopStep(a, start, univ, done, queue, disc, seen, links, levels);
        queue := queue[1..];
        done := done + [vertex];
        ghost var seen0, queue0 := seen, queue;
        var nbrs := graph.GetNeighbors(vertex);
        assert nbrs == Neighbors(a, vertex);
        for i := 0 to |nbrs|
          invariant Inner(a, start, univ, done, queue, disc, seen, links, levels, i)
          invariant seen0 <= seen && (seen == seen0 ==> queue == queue0)
        {
          var neighbor := nbrs[i].target;
          if neighbor !in seen {
            InTargets(a, vertex, i);
            VisitStep(a, start, univ, done, queue, disc, seen, links, levels, i, vertex, neighbor);
            seen := seen + {neighbor};
            links := links[neighbor := Some(vertex)];
            levels := levels[neighbor := levels[vertex] + 1];
            queue := queue + [neighbor];
            disc := disc + [neighbor];
          } else {
            SkipStep(a, start, univ, done, queue, disc, seen, links, levels, i, vertex, neighbor);
          }
        }
        DoneStep(a, start, univ, done, queue, disc, seen, links, levels);
        Shrinks(univ, seen0, seen);
      }
      FinishStep(a, start, univ, done, disc, seen, links, levels);
    }

    /**
     * `find_shortest_path(start, end)`: `(false, [])` when `end` was not reached; otherwise the
     * parent chain from `end`, reversed: a walk of fewest edges from `start` to `end`.
     */
    method FindShortestPath(start: int, end: int) returns (found: bool, path: seq<int>)
      requires graph.Valid()
      modifies this
      ensures Searched(start)
      ensures found <==> end in visited
      ensures found <==> Reachable(graph.edges, start, end)
      ensures !found ==> path == []
      ensures found ==> ChainPath(start, end, path, parent, distance)
      ensures found ==> forall p :: IsWalk(graph.edges, p, start, end) ==> |path| - 1 <= |p|
      ensures forall i :: 0 < i < |path| ==> Adjacent(graph.edges, path[i - 1], path[i])
    {
      var _ := Search(start);
      SearchIsComplete(graph.edges, start, executionOrder, visited, parent, distance, end);
      if end !in visited {
        return false, [];
      }
      found := true;
      path := PathTo(graph.edges, start, visited, parent, distance, end);
    }

    /**
     * `get_level_order(start)`: the visited vertices grouped by level, the levels in ascending
     * order, each group in visit order. The `distance` dictionary is filled in discovery order,
     * which is the visit order, so the loop walks `executionOrder`.
     */
    method GetLevelOrder(start: int) returns (levels: seq<(int, seq<int>)>)
      requires graph.Valid()
      modifies this
      ensures Searched(start)
      ensures forall i, j :: 0 <= i < j < |levels| ==> levels[i].0 < levels[j].0
      ensures forall i :: 0 <= i < |levels| ==> levels[i].1 != [] && levels[i].1 == AtLevel(executionOrder, distance, levels[i].0)
      ensures forall v :: v in visited ==> exists i :: 0 <= i < |levels| && levels[i].0 == distance[v]
    {
      var _ := Search(start);
      levels := GroupByLevel(executionOrder, distance);
    }
  }
}
