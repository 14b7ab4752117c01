/**
 * The invariant of the recursive depth-first search of src/bfs_dfs.py, in parts, and one lemma
 * per step of the search (discovering a vertex, recording a parent, finishing a vertex) showing
 * that the step keeps it.
 */
module DepthFirstInvariant {
  import opened Adjacency
  import opened Walks

  /**
   * The fields `_dfs_recursive` updates: the visited set, the parent links, the discovery and
   * finish times, the visit order and the time counter.
   */
  datatype Clock = Clock(visited: set<int>, parent: map<int, int>, disc: map<int, int>, fin: map<int, int>,
                         order: seq<int>, time: int)

  /** The first `n` entries of `u`'s list lead to vertices of `visited`. */
  ghost predicate ExploredUpTo(a: Adj, u: int, n: int, visited: set<int>)
  {
    forall j :: 0 <= j < n && j < |Neighbors(a, u)| ==> Neighbors(a, u)[j].target in visited
  }

  /**
   * The counter and the stamps, while the calls for the vertices of `stack` are open: the
   * discovered vertices are the visited ones and the visit order; the open ones are exactly the
   * visited ones without a finish time; every stamp lies between 1 and the counter, a finish
   * after its discovery; each discovery and each finish has advanced the counter by one; and the
   * open calls were entered in the order of `stack`.
   */
  ghost predicate Stamped(visited: set<int>, disc: map<int, int>, fin: map<int, int>, order: seq<int>, time: int,
                          stack: seq<int>)
  {
    && (forall v :: v in disc <==> v in visited)
    && (forall v :: v in fin ==> v in visited)
    && (forall v :: v in visited <==> v in order)
    && Distinct(order)
    && (forall v :: v in stack ==> v in visited && v !in fin)
    && (forall v :: v in visited && v !in fin ==> v in stack)
    && (forall v :: v in visited ==> 1 <= disc[v] <= time)
    && (forall v :: v in fin ==> disc[v] < fin[v] <= time)
    && 0 <= time == 2 * |order| - |stack|
    && (forall i, j :: 0 <= i < j < |stack| ==> stack[i] in disc && stack[j] in disc && disc[stack[i]] < disc[stack[j]])
  }

  /**
   * The parent links of the visited vertices: the root is visited first and has no parent,
   * every other visited vertex has one, discovered earlier and holding a stored edge to it, and
   * a vertex whose parent has finished has finished before it.
   */
  ghost predicate Linked(a: Adj, root: int, visited: set<int>, parent: map<int, int>, disc: map<int, int>,
                         fin: map<int, int>, order: seq<int>)
  {
    && (order != [] ==> order[0] == root)
    && root !in parent
    && (forall v :: v in visited && v != root ==> v in parent)
    && (forall v {:trigger parent[v]} :: v in parent && v in visited ==>
          && parent[v] in visited && parent[v] in disc && v in disc
          && disc[parent[v]] < disc[v] && Adjacent(a, parent[v], v)
          && (parent[v] in fin ==> v in fin && fin[v] < fin[parent[v]]))
  }

  /** Every entry of every finished vertex leads to a visited vertex. */
  ghost predicate Closed(a: Adj, visited: set<int>, fin: map<int, int>)
  {
    forall u :: u in fin ==> ExploredUpTo(a, u, |Neighbors(a, u)|, visited)
  }

  /** Every vertex with a parent link has been visited. */
  ghost predicate Settled(visited: set<int>, parent: map<int, int>)
  {
    forall v :: v in parent ==> v in visited
  }

  /** The whole state while the calls on `stack` are open. */
  ghost predicate Running(a: Adj, root: int, s: Clock, stack: seq<int>)
  {
    && Stamped(s.visited, s.disc, s.fin, s.order, s.time, stack)
    && Linked(a, root, s.visited, s.parent, s.disc, s.fin, s.order)
    && Closed(a, s.visited, s.fin)
  }

  /** What a finished search from `root` leaves: no call is open. */
  ghost predicate Finished(a: Adj, root: int, s: Clock)
  {
    Running(a, root, s, []) && Settled(s.visited, s.parent) && root in s.visited
  }

  /** What `_dfs_recursive(vertex)` may rely on when it is entered from the calls on `stack`. */
  ghost predicate Entering(a: Adj, root: int, s: Clock, vertex: int, stack: seq<int>)
  {
    && Running(a, root, s, stack)
    && vertex !in s.visited
    && (forall v :: v in s.parent ==> v in s.visited || v == vertex)
    && (vertex == root <==> s.order == [])
    && (vertex != root ==>
          && vertex in s.parent && stack != [] && s.parent[vertex] == stack[|stack| - 1]
          && Adjacent(a, stack[|stack| - 1], vertex))
  }

  lemma ExploredGrows(a: Adj, u: int, n: int, before: set<int>, after: set<int>)
    requires ExploredUpTo(a, u, n, before) && before <= after
    ensures ExploredUpTo(a, u, n, after)
  {
  }

  lemma ExploredNext(a: Adj, u: int, i: nat, visited: set<int>)
    requires ExploredUpTo(a, u, i, visited) && i < |Neighbors(a, u)| && Neighbors(a, u)[i].target in visited
    ensures ExploredUpTo(a, u, i + 1, visited)
  {
  }

  lemma ClosedGrows(a: Adj, visited: set<int>, fin: map<int, int>, v: int)
    requires Closed(a, visited, fin)
    ensures Closed(a, visited + {v}, fin)
  {
    forall u | u in fin
      ensures ExploredUpTo(a, u, |Neighbors(a, u)|, visited + {v})
    {
      ExploredGrows(a, u, |Neighbors(a, u)|, visited, visited + {v});
    }
  }

  /** Stamping a discovery at `time + 1` opens a call for `vertex`. */
  lemma DiscoverStamps(visited: set<int>, disc: map<int, int>, fin: map<int, int>, order: seq<int>, time: int,
                       stack: seq<int>, vertex: int)
    requires Stamped(visited, disc, fin, order, time, stack) && vertex !in visited
    ensures Stamped(visited + {vertex}, disc[vertex := time + 1], fin, order + [vertex], time + 1, stack + [vertex])
  {
    var visited', disc', order', inner := visited + {vertex}, disc[vertex := time + 1], order + [vertex], stack + [vertex];
    assert Distinct(order') by {
      forall i | 0 <= i < |order|
        ensures order'[i] != vertex
      {
        assert order'[i] == order[i] && order[i] in visited;
      }
    }
    forall v | v in visited'
      ensures v in order'
    {
      if v != vertex {
        assert v in order;
        var k :| 0 <= k < |order| && order[k] == v;
        assert order'[k] == v;
      }
    }
    forall v | v in order'
      ensures v in visited'
    {
      if v != vertex {
        var k :| 0 <= k < |order'| && order'[k] == v;
        assert order[k] == v;
      }
    }
    forall v | v in inner
      ensures v in visited' && v !in fin
    {
      if v != vertex {
        assert v in stack;
      }
    }
    forall v | v in visited' && v !in fin
      ensures v in inner
    {
      if v != vertex {
        assert v in stack;
      }
    }
    forall v | v in visited'
      ensures v in disc' && 1 <= disc'[v] <= time + 1
    {
    }
    forall v | v in fin
      ensures disc'[v] < fin[v] <= time + 1
    {
      assert v != vertex;
    }
    forall i, j | 0 <= i < j < |inner|
      ensures inner[i] in disc' && inner[j] in disc' && disc'[inner[i]] < disc'[inner[j]]
    {
      assert inner[i] == stack[i] && stack[i] in visited;
      if j < |stack| {
        assert inner[j] == stack[j];
      }
    }
  }

  /** The discovered vertex hangs under the open call on top of `stack`, if there is one. */
  lemma DiscoverLinks(a: Adj, root: int, s: Clock, vertex: int, stack: seq<int>)
    requires Entering(a, root, s, vertex, stack)
    ensures Linked(a, root, s.visited + {vertex}, s.parent, s.disc[vertex := s.time + 1], s.fin, s.order + [vertex])
    ensures Settled(s.visited + {vertex}, s.parent)
  {
    var visited', disc', order' := s.visited + {vertex}, s.disc[vertex := s.time + 1], s.order + [vertex];
    if s.order != [] {
      assert order'[0] == s.order[0];
    }
    forall v | v in s.parent && v in visited'
      ensures && s.parent[v] in visited' && s.parent[v] in disc' && v in disc'
              && disc'[s.parent[v]] < disc'[v] && Adjacent(a, s.parent[v], v)
              && (s.parent[v] in s.fin ==> v in s.fin && s.fin[v] < s.fin[s.parent[v]])
    {
      if v == vertex {
        var top := stack[|stack| - 1];
        assert top in stack;
      } else {
        assert s.parent[v] in s.visited;
      }
    }
  }

  /** Stamping the discovery of `vertex` opens its call. */
  lemma DiscoverStep(a: Adj, root: int, s: Clock, vertex: int, stack: seq<int>)
    requires Entering(a, root, s, vertex, stack)
    ensures var d := s.time + 1;
            var t := Clock(s.visited + {vertex}, s.parent, s.disc[vertex := d], s.fin, s.order + [vertex], d);
            Running(a, root, t, stack + [vertex]) && Settled(t.visited, t.parent)
  {
    DiscoverStamps(s.visited, s.disc, s.fin, s.order, s.time, stack, vertex);
    DiscoverLinks(a, root, s, vertex, stack);
    ClosedGrows(a, s.visited, s.fin, vertex);
  }

  /** Recording `vertex` as the parent of the unvisited neighbour `n` prepares the call for `n`. */
  lemma PendStep(a: Adj, root: int, s: Clock, vertex: int, stack: seq<int>, n: int, w: int)
    requires Running(a, root, s, stack + [vertex]) && Settled(s.visited, s.parent)
    requires n !in s.visited && HasEdge(a, Edge(vertex, n, w))
    ensures Entering(a, root, s.(parent := s.parent[n := vertex]), n, stack + [vertex])
  {
    var inner := stack + [vertex];
    assert vertex in inner;
    assert vertex in s.order;
    assert inner[|inner| - 1] == vertex;
    var parent' := s.parent[n := vertex];
    forall v | v in parent' && v in s.visited
      ensures && parent'[v] in s.visited && parent'[v] in s.disc && v in s.disc
              && s.disc[parent'[v]] < s.disc[v] && Adjacent(a, parent'[v], v)
              && (parent'[v] in s.fin ==> v in s.fin && s.fin[v] < s.fin[parent'[v]])
    {
      assert v != n && parent'[v] == s.parent[v];
    }
    assert Linked(a, root, s.visited, parent', s.disc, s.fin, s.order);
  }

  /** Stamping a finish at `time + 1` closes the call on top of the stack. */
  lemma FinishStamps(visited: set<int>, disc: map<int, int>, fin: map<int, int>, order: seq<int>, time: int,
                     stack: seq<int>, vertex: int)
    requires Stamped(visited, disc, fin, order, time, stack + [vertex])
    ensures Stamped(visited, disc, fin[vertex := time + 1], order, time + 1, stack)
    ensures forall v :: v in stack ==> v in disc && disc[v] < disc[vertex]
  {
    var inner := stack + [vertex];
    var fin' := fin[vertex := time + 1];
    assert inner[|inner| - 1] == vertex;
    assert forall v :: v in stack ==> v in inner;
    forall v | v in stack
      ensures v != vertex && v in disc && disc[v] < disc[vertex]
    {
      var i :| 0 <= i < |stack| && stack[i] == v;
      assert inner[i] == v;
    }
    forall v | v in visited && v !in fin'
      ensures v in stack
    {
      assert v in inner;
    }
    forall i, j | 0 <= i < j < |stack|
      ensures stack[i] in disc && stack[j] in disc && disc[stack[i]] < disc[stack[j]]
    {
      assert inner[i] == stack[i] && inner[j] == stack[j];
    }
  }

  /** A vertex finishing after all its children keeps the parent links nested. */
  lemma FinishLinks(a: Adj, root: int, s: Clock, vertex: int, stack: seq<int>)
    requires Running(a, root, s, stack + [vertex]) && Settled(s.visited, s.parent)
    requires forall v :: v in stack ==> v in s.disc && s.disc[v] < s.disc[vertex]
    ensures Linked(a, root, s.visited, s.parent, s.disc, s.fin[vertex := s.time + 1], s.order)
  {
    var inner := stack + [vertex];
    assert forall v :: v in inner ==> v in stack || v == vertex;
  }

  lemma FinishClosed(a: Adj, visited: set<int>, fin: map<int, int>, vertex: int, f: int)
    requires Closed(a, visited, fin) && ExploredUpTo(a, vertex, |Neighbors(a, vertex)|, visited)
    ensures Closed(a, visited, fin[vertex := f])
  {
  }

  /** Stamping the finish of `vertex`, whose entries all lead to visited vertices, closes its call. */
  lemma FinishStep(a: Adj, root: int, s: Clock, vertex: int, stack: seq<int>)
    requires Running(a, root, s, stack + [vertex]) && Settled(s.visited, s.parent)
    requires ExploredUpTo(a, vertex, |Neighbors(a, vertex)|, s.visited)
    ensures var t := s.(fin := s.fin[vertex := s.time + 1], time := s.time + 1);
            Running(a, root, t, stack) && Settled(t.visited, t.parent) && vertex in t.fin
  {
    FinishStamps(s.visited, s.disc, s.fin, s.order, s.time, stack, vertex);
    FinishLinks(a, root, s, vertex, stack);
    FinishClosed(a, s.visited, s.fin, vertex, s.time + 1);
  }

  /** A list without repeats has as many distinct elements as entries. */
  lemma {:induction false} DistinctSize(xs: seq<int>)
    requires Distinct(xs)
    ensures |set x | x in xs| == |xs|
  {
    if xs != [] {
      var init, last := xs[..|xs| - 1], xs[|xs| - 1];
      assert Distinct(init);
      DistinctSize(init);
      assert (set x | x in xs) == (set x | x in init) + {last};
      assert last !in init by {
        forall i | 0 <= i < |init|
          ensures init[i] != last
        {
          assert init[i] == xs[i];
        }
      }
    }
  }

  /**
   * Parent links forming a tree at `root`: every visited vertex but the root has a parent,
   * visited, discovered earlier, and holding a stored edge to it.
   */
  ghost predicate ParentTree(a: Adj, root: int, visited: set<int>, parent: map<int, int>, disc: map<int, int>)
  {
    && root in visited && root !in parent
    && (forall v :: v in visited ==> v in disc && 1 <= disc[v])
    && (forall v :: v in visited && v != root <==> v in parent)
    && (forall v {:trigger parent[v]} :: v in parent ==>
          parent[v] in visited && Adjacent(a, parent[v], v) && disc[parent[v]] < disc[v])
  }

  /** Following parent links, each to a vertex discovered earlier, leads back to the root along stored edges. */
  lemma {:induction false} ParentsReach(a: Adj, root: int, visited: set<int>, parent: map<int, int>, disc: map<int, int>,
                                        fin: map<int, int>, order: seq<int>, v: int)
    requires Linked(a, root, visited, parent, disc, fin, order)
    requires forall u :: u in visited ==> u in disc && 1 <= disc[u]
    requires v in visited
    ensures Reachable(a, root, v)
    decreases disc[v]
  {
    if v == root {
      assert IsWalk(a, [], root, root);
    } else {
      var p := parent[v];
      ParentsReach(a, root, visited, parent, disc, fin, order, p);
      ReachStep(a, root, p, v);
    }
  }

  /** Once every visited vertex is finished, no stored edge leaves the visited set. */
  lemma EdgesStay(a: Adj, visited: set<int>, fin: map<int, int>)
    requires Closed(a, visited, fin) && forall v :: v in visited ==> v in fin
    ensures forall e :: HasEdge(a, e) && e.from in visited ==> e.to in visited
  {
    forall e | HasEdge(a, e) && e.from in visited
      ensures e.to in visited
    {
      var nbrs := Neighbors(a, e.from);
      var j :| 0 <= j < |nbrs| && nbrs[j] == Entry(e.to, e.weight);
      assert ExploredUpTo(a, e.from, |nbrs|, visited);
    }
  }

  /** A finished search from `root` has visited exactly the vertices reachable from `root`. */
  lemma SearchReaches(a: Adj, root: int, s: Clock, v: int)
    requires Finished(a, root, s)
    ensures v in s.visited <==> Reachable(a, root, v)
  {
    if v in s.visited {
      ParentsReach(a, root, s.visited, s.parent, s.disc, s.fin, s.order, v);
    } else if Reachable(a, root, v) {
      var p :| IsWalk(a, p, root, v);
      assert forall u :: u in s.visited ==> u in s.fin;
      EdgesStay(a, s.visited, s.fin);
      WalkStaysIn(a, s.visited, p, root, v);
    }
  }

  /**
   * The stamps of a finished search: the visit order starts at `root` and lists each visited
   * vertex once; every visited vertex is discovered and finished, at times between 1 and twice
   * the number of visited vertices; and a vertex is discovered after and finished before its
   * parent, with a stored edge from the parent.
   */
  lemma FinishedStamps(a: Adj, root: int, s: Clock)
    requires Finished(a, root, s)
    ensures s.order != [] && s.order[0] == root && Distinct(s.order)
    ensures forall v :: v in s.visited <==> v in s.order
    ensures s.time == 2 * |s.visited|
    ensures forall v :: v in s.visited ==> v in s.disc && v in s.fin && 1 <= s.disc[v] < s.fin[v] <= s.time
    ensures root !in s.parent
    ensures forall v :: v in s.visited && v != root <==> v in s.parent
    ensures forall v {:trigger s.parent[v]} :: v in s.parent ==>
              && s.parent[v] in s.visited && Adjacent(a, s.parent[v], v)
              && s.disc[s.parent[v]] < s.disc[v] && s.fin[v] < s.fin[s.parent[v]]
    ensures ParentTree(a, root, s.visited, s.parent, s.disc)
  {
    assert root in s.order;
    var inOrder := set x | x in s.order;
    forall x
      ensures x in s.visited <==> x in inOrder
    {
      assert x in s.visited <==> x in s.order;
    }
    assert s.visited == inOrder;
    DistinctSize(s.order);
  }

  /*
   * The iterative search. Each vertex is marked visited when it is pushed, so the stack and the
   * visit order never share a vertex and no vertex is pushed twice.
   */

  /** The last `|Neighbors(a, u)| - j` entries of `u`'s list lead to vertices of `visited`. */
  ghost predicate ExploredFrom(a: Adj, u: int, j: int, visited: set<int>)
  {
    forall k :: 0 <= k < |Neighbors(a, u)| && j <= k ==> Neighbors(a, u)[k].target in visited
  }

  /** Every entry of every vertex of `us` leads to a vertex of `visited`. */
  ghost predicate ExploredAll(a: Adj, us: seq<int>, visited: set<int>)
  {
    forall u :: u in us ==> ExploredUpTo(a, u, |Neighbors(a, u)|, visited)
  }

  /**
   * Between the steps of `search_iterative(start)`: the visited vertices are those popped into
   * the visit order and those still on the stack, no vertex twice; `start` was pushed first and
   * has no parent; every other visited vertex has one, already popped, with a stored edge to it;
   * and every visited vertex is reachable from `start`.
   */
  ghost predicate Pending(a: Adj, start: int, visited: set<int>, parent: map<int, int>, order: seq<int>, stack: seq<int>)
  {
    && Distinct(order) && Distinct(stack) && (forall v :: v in stack ==> v !in order)
    && (forall v :: v in visited <==> v in order || v in stack)
    && (order == [] ==> stack == [start]) && (order != [] ==> order[0] == start)
    && start !in parent
    && (forall v :: v in visited && v != start <==> v in parent)
    && (forall v {:trigger parent[v]} :: v in parent ==> parent[v] in order && Adjacent(a, parent[v], v))
    && (forall v :: v in visited ==> Reachable(a, start, v))
  }

  /**
   * What `search_iterative(start)` leaves: the visit order starts at `start` and lists each
   * vertex reachable from `start` once and nothing else; `start` has no parent, every other
   * visited vertex has a visited parent with a stored edge to it.
   */
  ghost predicate Spanned(a: Adj, start: int, visited: set<int>, parent: map<int, int>, order: seq<int>)
  {
    && order != [] && order[0] == start && Distinct(order)
    && (forall v :: v in visited <==> v in order)
    && (forall v :: v in visited <==> Reachable(a, start, v))
    && start !in parent
    && (forall v :: v in visited && v != start <==> v in parent)
    && (forall v {:trigger parent[v]} :: v in parent ==> parent[v] in visited && Adjacent(a, parent[v], v))
  }

  lemma ExploredAllGrows(a: Adj, us: seq<int>, before: set<int>, after: set<int>)
    requires ExploredAll(a, us, before) && before <= after
    ensures ExploredAll(a, us, after)
  {
    forall u | u in us
      ensures ExploredUpTo(a, u, |Neighbors(a, u)|, after)
    {
      ExploredGrows(a, u, |Neighbors(a, u)|, before, after);
    }
  }

  lemma ExploredAllAppend(a: Adj, us: seq<int>, u: int, before: set<int>, after: set<int>)
    requires ExploredAll(a, us, before) && before <= after && ExploredUpTo(a, u, |Neighbors(a, u)|, after)
    ensures ExploredAll(a, us + [u], after)
  {
    ExploredAllGrows(a, us, before, after);
    assert forall x :: x in us + [u] ==> x in us || x == u;
  }

  lemma PendingInit(a: Adj, start: int)
    ensures Pending(a, start, {start}, map[], [], [start])
  {
    assert IsWalk(a, [], start, start);
  }

  /** Popping the top of the stack into the visit order. */
  lemma PopStep(a: Adj, start: int, visited: set<int>, parent: map<int, int>, order: seq<int>, stack: seq<int>)
    requires Pending(a, start, visited, parent, order, stack) && stack != []
    ensures Pending(a, start, visited, parent, order + [stack[|stack| - 1]], stack[..|stack| - 1])
  {
    var v, rest := stack[|stack| - 1], stack[..|stack| - 1];
    var order' := order + [v];
    assert stack == rest + [v];
    assert Distinct(order') by {
      forall i | 0 <= i < |order|
        ensures order'[i] != v
      {
        assert order'[i] == order[i] && order[i] in order && v in stack;
      }
    }
    forall x | x in rest
      ensures x !in order'
    {
      var k :| 0 <= k < |rest| && rest[k] == x;
      assert stack[k] == x;
    }
  }

  /** Marking the unvisited neighbour `n` of the last popped vertex, recording the parent and pushing it. */
  lemma PushStep(a: Adj, start: int, visited: set<int>, parent: map<int, int>, order: seq<int>, stack: seq<int>,
                 n: int, w: int)
    requires Pending(a, start, visited, parent, order, stack) && order != []
    requires n !in visited && HasEdge(a, Edge(order[|order| - 1], n, w))
    ensures Pending(a, start, visited + {n}, parent[n := order[|order| - 1]], order, stack + [n])
  {
    var u := order[|order| - 1];
    assert u in order;
    ReachStep(a, start, u, n);
    var stack' := stack + [n];
    assert Distinct(stack') by {
      forall i | 0 <= i < |stack|
        ensures stack'[i] != n
      {
        assert stack'[i] == stack[i];
      }
    }
  }

  /** An empty stack leaves a spanning search. */
  lemma PendingDone(a: Adj, start: int, visited: set<int>, parent: map<int, int>, order: seq<int>)
    requires Pending(a, start, visited, parent, order, []) && ExploredAll(a, order, visited)
    ensures Spanned(a, start, visited, parent, order)
  {
    forall v
      ensures v in visited <==> Reachable(a, start, v)
    {
      if Reachable(a, start, v) {
        var p :| IsWalk(a, p, start, v);
        forall e | HasEdge(a, e) && e.from in visited
          ensures e.to in visited
        {
          var nbrs := Neighbors(a, e.from);
          var j :| 0 <= j < |nbrs| && nbrs[j] == Entry(e.to, e.weight);
          assert ExploredUpTo(a, e.from, |nbrs|, visited);
        }
        assert start in order;
        WalkStaysIn(a, visited, p, start, v);
      }
    }
  }
}
