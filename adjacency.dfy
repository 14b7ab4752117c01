/**
 * The adjacency store shared by both graph classes: a dictionary from a vertex to
 * its list of `(neighbour, weight)` entries, in key-insertion order, as a
 * `defaultdict(list)` keeps it. Adding an edge appends to the source's list and,
 * for an undirected graph, also to the target's list.
 */
module Adjacency {

  /** One adjacency entry `(neighbour, weight)`. */
  datatype Entry = Entry(target: int, weight: int)

  /** One edge triple `(u, v, w)`, also the shape of an edge record `{from, to, weight}`. */
  datatype Edge = Edge(from: int, to: int, weight: int)

  /** `keys` is the dictionary's insertion order, `lists` its contents. */
  datatype Adj = Adj(keys: seq<int>, lists: map<int, seq<Entry>>)

  /** Keys are distinct, name exactly the mapped vertices, and every list was created by an append. */
  ghost predicate Valid(a: Adj)
  {
    && (forall i, j :: 0 <= i < j < |a.keys| ==> a.keys[i] != a.keys[j])
    && (forall u :: u in a.lists <==> u in a.keys)
    && (forall u :: u in a.lists ==> a.lists[u] != [])
  }

  const Empty: Adj := Adj([], map[])

  lemma EmptyValid()
    ensures Valid(Empty)
  {
  }

  /** The list stored for `u`, or the empty list when `u` has none (`adj.get(u, [])`). */
  function Neighbors(a: Adj, u: int): seq<Entry>
  {
    if u in a.lists then a.lists[u] else []
  }

  /** The edge `(u, v, w)` is stored as the entry `(v, w)` of `u`. */
  predicate HasEdge(a: Adj, e: Edge)
  {
    Entry(e.to, e.weight) in Neighbors(a, e.from)
  }

  /** `x` is the neighbour in some stored entry. */
  ghost predicate IsTarget(a: Adj, x: int)
  {
    exists u, w :: HasEdge(a, Edge(u, x, w))
  }

  /** `adj[u].append(e)` on a `defaultdict(list)`. */
  function Append(a: Adj, u: int, e: Entry): (r: Adj)
    requires Valid(a)
    ensures Valid(r)
    ensures r.keys == if u in a.lists then a.keys else a.keys + [u]
    ensures Neighbors(r, u) == Neighbors(a, u) + [e]
    ensures forall x :: x != u ==> Neighbors(r, x) == Neighbors(a, x)
  {
    if u in a.lists then Adj(a.keys, a.lists[u := a.lists[u] + [e]])
    else Adj(a.keys + [u], a.lists[u := [e]])
  }

  /** `add_edge(u, v, w)`: the entry `(v, w)` for `u`, and `(u, w)` for `v` when undirected. */
  function AddEdge(a: Adj, u: int, v: int, w: int, directed: bool): (r: Adj)
    requires Valid(a)
    ensures Valid(r)
    ensures forall x :: (Neighbors(r, x) ==
      Neighbors(a, x) + (if x == u then [Entry(v, w)] else []) + (if !directed && x == v then [Entry(u, w)] else []))
  {
    var b := Append(a, u, Entry(v, w));
    if directed then b else Append(b, v, Entry(u, w))
  }

  /** The triples of one list, in order: `for v, w in adj[u]: (u, v, w)`. */
  function Row(u: int, es: seq<Entry>): (r: seq<Edge>)
    ensures |r| == |es|
    ensures forall i :: 0 <= i < |es| ==> r[i] == Edge(u, es[i].target, es[i].weight)
  {
    if es == [] then [] else Row(u, es[..|es| - 1]) + [Edge(u, es[|es| - 1].target, es[|es| - 1].weight)]
  }

  /** The triples of the lists of `ks`, key after key. */
  function EdgesOf(a: Adj, ks: seq<int>): seq<Edge>
    requires forall k :: k in ks ==> k in a.lists
  {
    if ks == [] then [] else EdgesOf(a, ks[..|ks| - 1]) + Row(ks[|ks| - 1], a.lists[ks[|ks| - 1]])
  }

  /** Every stored entry as a triple, keys in insertion order, each list in order. */
  function EdgeList(a: Adj): seq<Edge>
    requires Valid(a)
  {
    EdgesOf(a, a.keys)
  }

  /** The number of stored entries over the lists of `ks`. */
  function EntryCount(a: Adj, ks: seq<int>): nat
    requires forall k :: k in ks ==> k in a.lists
  {
    if ks == [] then 0
    else
      var k := ks[|ks| - 1];
      assert k in ks;
      EntryCount(a, ks[..|ks| - 1]) + |a.lists[k]|
  }

  lemma {:induction false} RowCount(u: int, es: seq<Entry>, e: Edge)
    ensures multiset(Row(u, es))[e] == if e.from == u then multiset(es)[Entry(e.to, e.weight)] else 0
  {
    if es != [] {
      var init, last := es[..|es| - 1], es[|es| - 1];
      RowCount(u, init, e);
      assert es == init + [last];
    }
  }

  lemma {:induction false} EdgesOfCount(a: Adj, ks: seq<int>, e: Edge)
    requires forall k :: k in ks ==> k in a.lists
    requires forall i, j :: 0 <= i < j < |ks| ==> ks[i] != ks[j]
    ensures multiset(EdgesOf(a, ks))[e] ==
      if e.from in ks then multiset(a.lists[e.from])[Entry(e.to, e.weight)] else 0
  {
    if ks != [] {
      var init, last := ks[..|ks| - 1], ks[|ks| - 1];
      assert ks == init + [last];
      assert last !in init;
      EdgesOfCount(a, init, e);
      RowCount(last, a.lists[last], e);
      assert multiset(EdgesOf(a, ks)) == multiset(EdgesOf(a, init)) + multiset(Row(last, a.lists[last]));
    }
  }

  lemma {:induction false} EdgesOfLength(a: Adj, ks: seq<int>)
    requires forall k :: k in ks ==> k in a.lists
    ensures |EdgesOf(a, ks)| == EntryCount(a, ks)
  {
    if ks != [] {
      EdgesOfLength(a, ks[..|ks| - 1]);
    }
  }

  /**
   * `edges()` holds exactly one triple per adjacency entry: the triple `(u, v, w)` occurs
   * as often as the entry `(v, w)` occurs in `u`'s list, and the length is the number of entries.
   */
  lemma EdgeListCount(a: Adj, e: Edge)
    requires Valid(a)
    ensures multiset(EdgeList(a))[e] == multiset(Neighbors(a, e.from))[Entry(e.to, e.weight)]
    ensures |EdgeList(a)| == EntryCount(a, a.keys)
  {
    EdgesOfCount(a, a.keys, e);
    EdgesOfLength(a, a.keys);
  }

  /** A triple is listed exactly when its entry is stored. */
  lemma EdgeListHas(a: Adj, e: Edge)
    requires Valid(a)
    ensures e in EdgeList(a) <==> HasEdge(a, e)
  {
    EdgeListCount(a, e);
  }

  /**
   * `add_edge(u, v, w)` adds exactly one triple `(u, v, w)` to `edges()` and, when the graph is
   * undirected, one triple `(v, u, w)`; every other triple keeps its number of occurrences.
   */
  lemma AddEdgeCount(a: Adj, u: int, v: int, w: int, directed: bool, e: Edge)
    requires Valid(a)
    ensures multiset(EdgeList(AddEdge(a, u, v, w, directed)))[e] ==
      multiset(EdgeList(a))[e] + (if e == Edge(u, v, w) then 1 else 0) + (if !directed && e == Edge(v, u, w) then 1 else 0)
  {
    var r := AddEdge(a, u, v, w, directed);
    var en := Entry(e.to, e.weight);
    assert multiset(EdgeList(r))[e] == multiset(Neighbors(r, e.from))[en] by {
      EdgeListCount(r, e);
    }
    assert multiset(EdgeList(a))[e] == multiset(Neighbors(a, e.from))[en] by {
      EdgeListCount(a, e);
    }
    AddEdgeEntries(a, u, v, w, directed, e.from, en);
    assert (e == Edge(u, v, w)) == (e.from == u && en == Entry(v, w));
    assert (e == Edge(v, u, w)) == (e.from == v && en == Entry(u, w));
  }

  /** `add_edge` adds one entry `(v, w)` to `u`'s list and, undirected, one `(u, w)` to `v`'s. */
  lemma AddEdgeEntries(a: Adj, u: int, v: int, w: int, directed: bool, x: int, en: Entry)
    requires Valid(a)
    ensures multiset(Neighbors(AddEdge(a, u, v, w, directed), x))[en] ==
      multiset(Neighbors(a, x))[en] + (if x == u && en == Entry(v, w) then 1 else 0)
        + (if !directed && x == v && en == Entry(u, w) then 1 else 0)
  {
    var first: seq<Entry> := if x == u then [Entry(v, w)] else [];
    var second: seq<Entry> := if !directed && x == v then [Entry(u, w)] else [];
    assert Neighbors(AddEdge(a, u, v, w, directed), x) == Neighbors(a, x) + first + second;
  }

  /** The set of neighbours named by some entry. */
  function Targets(a: Adj): set<int>
  {
    set u, i | u in a.lists && 0 <= i < |a.lists[u]| :: a.lists[u][i].target
  }

  lemma TargetsAre(a: Adj, x: int)
    ensures x in Targets(a) <==> IsTarget(a, x)
  {
    if x in Targets(a) {
      var u, i :| u in a.lists && 0 <= i < |a.lists[u]| && a.lists[u][i].target == x;
      assert HasEdge(a, Edge(u, x, a.lists[u][i].weight));
    }
    if IsTarget(a, x) {
      var u, w :| HasEdge(a, Edge(u, x, w));
      var i :| 0 <= i < |a.lists[u]| && a.lists[u][i] == Entry(x, w);
    }
  }

  ghost predicate Increasing(r: seq<int>)
  {
    forall i, j :: 0 <= i < j < |r| ==> r[i] < r[j]
  }

  /** Inserts `x` into a strictly increasing list unless it is already there. */
  function InsertSorted(r: seq<int>, x: int): (r': seq<int>)
    requires Increasing(r)
    ensures Increasing(r')
    ensures forall y :: y in r' <==> y in r || y == x
  {
    if r == [] then [x]
    else if x < r[0] then [x] + r
    else if x == r[0] then r
    else
      var rest := InsertSorted(r[1..], x);
      assert forall y :: y in rest ==> r[0] < y;
      ConsIncreasing(r[0], rest);
      [r[0]] + rest
  }

  lemma ConsIncreasing(h: int, rest: seq<int>)
    requires Increasing(rest) && forall y :: y in rest ==> h < y
    ensures Increasing([h] + rest)
  {
    forall i, j | 0 <= i < j < |[h] + rest|
      ensures ([h] + rest)[i] < ([h] + rest)[j]
    {
      assert ([h] + rest)[j] == rest[j - 1] && rest[j - 1] in rest;
      if i > 0 {
        assert ([h] + rest)[i] == rest[i - 1];
      }
    }
  }

  /** `sorted(set(xs))`: strictly increasing, with exactly the elements of `xs`. */
  function SortedDistinct(xs: seq<int>): (r: seq<int>)
    ensures Increasing(r)
    ensures forall y :: y in r <==> y in xs
  {
    if xs == [] then []
    else
      var r := InsertSorted(SortedDistinct(xs[..|xs| - 1]), xs[|xs| - 1]);
      assert xs == xs[..|xs| - 1] + [xs[|xs| - 1]];
      r
  }

  /** The neighbour of every listed triple, in order. */
  function Tos(es: seq<Edge>): (r: seq<int>)
    ensures |r| == |es|
    ensures forall i :: 0 <= i < |es| ==> r[i] == es[i].to
  {
    seq(|es|, i requires 0 <= i < |es| => es[i].to)
  }
}
