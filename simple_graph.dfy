/**
 * The small graph the shortest-path engines read (`Graph` of src/main.py) and the
 * parent-map walk `reconstruct_path`.
 */
module SimpleGraph {
  import opened Distance
  import opened Adjacency

  /** A graph stored as an adjacency dictionary, directed or not. */
  class Graph {
    var adj: Adj
    const directed: bool

    ghost predicate Valid()
      reads this
    {
      Adjacency.Valid(adj)
    }

    constructor (directed: bool)
      ensures Valid() && this.directed == directed
      ensures forall x :: Neighbors(adj, x) == []
    {
      adj := Empty;
      this.directed := directed;
    }

    /** Appends `(v, w)` to `u`'s list and, when undirected, `(u, w)` to `v`'s list. */
    method AddEdge(u: int, v: int, w: int)
      requires Valid()
      modifies this
      ensures Valid()
      ensures forall x :: (Neighbors(adj, x) ==
        Neighbors(old(adj), x) + (if x == u then [Entry(v, w)] else []) + (if !directed && x == v then [Entry(u, w)] else []))
    {
      adj := Adjacency.AddEdge(adj, u, v, w, directed);
    }

    /**
     * `vertices()`: strictly increasing, and holding exactly the dictionary's keys and the
     * neighbours named in its entries.
     */
    function Vertices(): (r: seq<int>)
      reads this
      requires Valid()
      ensures forall i, j :: 0 <= i < j < |r| ==> r[i] < r[j]
      ensures forall x :: x in r <==> x in adj.lists || IsTarget(adj, x)
    {
      var es := EdgeList(adj);
      var r := SortedDistinct(adj.keys + Tos(es));
      assert forall x :: x in adj.keys + Tos(es) <==> x in adj.keys || x in Tos(es);
      forall x | IsTarget(adj, x)
        ensures x in Tos(es)
      {
        var u, w :| HasEdge(adj, Edge(u, x, w));
        EdgeListHas(adj, Edge(u, x, w));
        var i :| 0 <= i < |es| && es[i] == Edge(u, x, w);
        assert Tos(es)[i] == x;
      }
      forall x | x in Tos(es)
        ensures IsTarget(adj, x)
      {
        var i :| 0 <= i < |es| && Tos(es)[i] == x;
        EdgeListHas(adj, es[i]);
        assert HasEdge(adj, Edge(es[i].from, x, es[i].weight));
      }
      r
    }

    /** `edges()`: one triple `(u, v, w)` for each entry `(v, w)` of `u`'s list. */
    function Edges(): (r: seq<Edge>)
      reads this
      requires Valid()
      ensures forall e :: multiset(r)[e] == multiset(Neighbors(adj, e.from))[Entry(e.to, e.weight)]
      ensures forall e :: e in r <==> HasEdge(adj, e)
    {
      var r := EdgeList(adj);
      forall e
        ensures multiset(r)[e] == multiset(Neighbors(adj, e.from))[Entry(e.to, e.weight)]
        ensures e in r <==> HasEdge(adj, e)
      {
        EdgeListCount(adj, e);
        EdgeListHas(adj, e);
      }
      r
    }
  }

  /** `parent.get(v)`: the recorded predecessor, or `None` for `None` and for a missing key. */
  function Step(parent: map<int, Option<int>>, v: int): Option<int>
  {
    if v in parent then parent[v] else None
  }

  /** Ranks that every parent link strictly lowers. */
  ghost predicate Ranked(parent: map<int, Option<int>>, rank: map<int, nat>)
  {
    forall v :: v in parent && parent[v].Some? ==>
      v in rank && parent[v].value in rank && rank[parent[v].value] < rank[v]
  }

  /** Following parent links always ends: some ranking is lowered by every link. */
  ghost predicate Acyclic(parent: map<int, Option<int>>)
  {
    exists rank :: Ranked(parent, rank)
  }

  /** Where `k` steps of `cur = parent.get(cur)` lead from `cur`; `None` stays `None`. */
  ghost function Follow(parent: map<int, Option<int>>, cur: Option<int>, k: nat): Option<int>
    decreases k
  {
    if k == 0 then cur else match cur
      case None => None
      case Some(v) => Follow(parent, Step(parent, v), k - 1)
  }

  /** The parent chain from `target` reaches `None` after finitely many steps. */
  ghost predicate ChainEnds(parent: map<int, Option<int>>, target: int)
  {
    exists k: nat :: Follow(parent, Some(target), k) == None
  }

  /** Under a ranking, the chain from `v` has ended after `rank[v] + 2` steps and stays ended. */
  lemma {:induction false} RankedChainEnds(parent: map<int, Option<int>>, rank: map<int, nat>, v: int)
    requires Ranked(parent, rank)
    ensures forall k: nat :: k >= (if v in rank then rank[v] + 2 else 2) ==> Follow(parent, Some(v), k) == None
    decreases if v in rank then rank[v] else 0
  {
    forall k: nat | k >= (if v in rank then rank[v] + 2 else 2)
      ensures Follow(parent, Some(v), k) == None
    {
      match Step(parent, v)
      case None =>
        assert Follow(parent, None, k - 1) == None;
      case Some(u) =>
        RankedChainEnds(parent, rank, u);
    }
  }

  /** In an acyclic map every chain ends, whatever the target. */
  lemma AcyclicChainEnds(parent: map<int, Option<int>>, target: int)
    requires Acyclic(parent)
    ensures ChainEnds(parent, target)
  {
    var rank :| Ranked(parent, rank);
    RankedChainEnds(parent, rank, target);
    var k: nat := if target in rank then rank[target] + 2 else 2;
    assert Follow(parent, Some(target), k) == None;
  }

  /** `path.reverse()` */
  function Reversed(s: seq<int>): (r: seq<int>)
    ensures |r| == |s|
    ensures forall i :: 0 <= i < |s| ==> r[i] == s[|s| - 1 - i]
  {
    if s == [] then [] else Reversed(s[1..]) + [s[0]]
  }

  /**
   * `reconstruct_path(parent, target)`: the parent chain from `target`, reversed so that it
   * runs from the chain's root to `target`. A target that is not a key yields `[]`.
   * The loop in the source ends exactly when the chain from `target` reaches `None`.
   */
  method ReconstructPath(parent: map<int, Option<int>>, target: int) returns (path: seq<int>)
    requires target in parent ==> ChainEnds(parent, target)
    ensures target !in parent ==> path == []
    ensures target in parent && parent[target] == None ==> path == [target]
    ensures target in parent ==>
      && |path| > 0 && path[|path| - 1] == target
      && Step(parent, path[0]) == None
      && (forall i :: 0 <= i < |path| - 1 ==> Step(parent, path[i + 1]) == Some(path[i]))
  {
    if target !in parent {
      return [];
    }
    ghost var n: nat :| Follow(parent, Some(target), n) == None;
    var chain: seq<int> := [];
    var cur: Option<int> := Some(target);
    while cur.Some?
      invariant chain == [] ==> cur == Some(target)
      invariant chain != [] ==> chain[0] == target && cur == Step(parent, chain[|chain| - 1])
      invariant forall k :: 0 <= k < |chain| - 1 ==> Step(parent, chain[k]) == Some(chain[k + 1])
      invariant parent[target] == None ==> |chain| <= 1
      invariant |chain| <= n && Follow(parent, cur, n - |chain|) == None
      decreases n - |chain|
    {
      chain := chain + [cur.value];
      cur := Step(parent, cur.value);
    }
    path := Reversed(chain);
  }
}
