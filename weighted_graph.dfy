/**
 * The weighted graph of src/graph.py that the traversals run on: a fixed vertex count,
 * an adjacency dictionary, and a name per vertex. Saving flattens the dictionary into
 * edge records; loading replays the records through `add_edge`, skipping a record only
 * when the graph is directed and the record is a self-loop. So a directed graph without
 * self-loops comes back unchanged, a directed graph loses its self-loops, and an undirected
 * graph comes back with every list doubled, since each stored entry is re-added together
 * with its reverse.
 */
module WeightedGraph {
  import opened Adjacency

  /** The decimal digit for `n`. */
  function Digit(n: nat): (c: char)
    requires n < 10
    ensures '0' <= c <= '9' && c as int - '0' as int == n
  {
    ('0' as int + n) as char
  }

  ghost predicate Digits(s: string)
  {
    forall i :: 0 <= i < |s| ==> '0' <= s[i] <= '9'
  }

  /** `str(n)` for a non-negative `n`: its decimal digits, most significant first. */
  function DecimalString(n: nat): (r: string)
    ensures r != [] && Digits(r)
    ensures n < 10 <==> |r| == 1
    ensures |r| > 1 ==> r[0] != '0'
  {
    if n < 10 then [Digit(n)] else DecimalString(n / 10) + [Digit(n % 10)]
  }

  /**
   * An undirected graph stores every edge in both directions: the entry `(v, w)` occurs in
   * `u`'s list as often as `(u, w)` occurs in `v`'s.
   */
  ghost predicate Symmetric(a: Adj)
  {
    forall u, v, w :: Occurrences(a, u, Entry(v, w)) == Occurrences(a, v, Entry(u, w))
  }

  /** How often `en` occurs in `u`'s list. */
  function Occurrences(a: Adj, u: int, en: Entry): nat
  {
    multiset(Neighbors(a, u))[en]
  }

  /** An undirected `add_edge` keeps the store symmetric. */
  lemma SymmetricAddEdge(a: Adj, u: int, v: int, w: int)
    requires Valid(a)
    ensures Symmetric(a) ==> Symmetric(AddEdge(a, u, v, w, false))
  {
    if Symmetric(a) {
      var r := AddEdge(a, u, v, w, false);
      forall x, y, z
        ensures Occurrences(r, x, Entry(y, z)) == Occurrences(r, y, Entry(x, z))
      {
        UndirectedOccurrences(a, u, v, w, x, y, z);
        UndirectedOccurrences(a, u, v, w, y, x, z);
        assert Occurrences(a, x, Entry(y, z)) == Occurrences(a, y, Entry(x, z));
      }
    }
  }

  /** An undirected `add_edge(u, v, w)` adds one `(v, w)` to `u` and one `(u, w)` to `v`. */
  lemma UndirectedOccurrences(a: Adj, u: int, v: int, w: int, x: int, y: int, z: int)
    requires Valid(a)
    ensures Occurrences(AddEdge(a, u, v, w, false), x, Entry(y, z)) == Occurrences(a, x, Entry(y, z))
      + (if x == u && y == v && z == w then 1 else 0) + (if x == v && y == u && z == w then 1 else 0)
  {
    AddEdgeEntries(a, u, v, w, false, x, Entry(y, z));
  }

  /** The data `save_to_json` writes: the vertex count, the kind, the names and the edge records. */
  datatype Document = Document(vertices: int, directed: bool, names: map<int, string>, edges: seq<Edge>)

  class Graph {
    const vertices: int
    const directed: bool
    var edges: Adj
    var vertexNames: map<int, string>

    ghost predicate Valid()
      reads this
    {
      Adjacency.Valid(edges) && (!directed ==> Symmetric(edges))
    }

    /** `Graph(vertices, directed)`: no edges, and the default name `str(i)` for each `0 <= i < vertices`. */
    constructor (vertices: int, directed: bool)
      ensures Valid() && this.vertices == vertices && this.directed == directed
      ensures edges == Empty && forall x :: Neighbors(edges, x) == []
      ensures vertexNames == map i | 0 <= i < vertices :: DecimalString(i)
      ensures forall i :: i in vertexNames <==> 0 <= i < vertices
    {
      this.vertices := vertices;
      this.directed := directed;
      edges := Empty;
      vertexNames := map i | 0 <= i < vertices :: DecimalString(i);
    }

    /** `add_edge(u, v, weight)`: `(v, weight)` for `u` and, undirected, `(u, weight)` for `v`. */
    method AddEdge(u: int, v: int, weight: int)
      requires Valid()
      modifies this
      ensures Valid() && vertexNames == old(vertexNames)
      ensures edges == Adjacency.AddEdge(old(edges), u, v, weight, directed)
      ensures forall x :: (Neighbors(edges, x) ==
        Neighbors(old(edges), x) + (if x == u then [Entry(v, weight)] else [])
          + (if !directed && x == v then [Entry(u, weight)] else []))
    {
      SymmetricAddEdge(edges, u, v, weight);
      edges := Adjacency.AddEdge(edges, u, v, weight, directed);
    }

    /** `set_vertex_name(vertex, name)`: renames an existing vertex, ignores any other number. */
    method SetVertexName(vertex: int, name: string)
      modifies this
      ensures edges == old(edges)
      ensures vertexNames == if 0 <= vertex < vertices then old(vertexNames)[vertex := name] else old(vertexNames)
    {
      if 0 <= vertex < vertices {
        vertexNames := vertexNames[vertex := name];
      }
    }

    /** `get_neighbors(vertex)`: exactly the entries stored for `vertex`, none for a vertex without edges. */
    function GetNeighbors(vertex: int): (r: seq<Entry>)
      reads this
      requires Valid()
      ensures r == [] <==> vertex !in edges.lists
      ensures forall en :: en in r <==> HasEdge(edges, Edge(vertex, en.target, en.weight))
    {
      Neighbors(edges, vertex)
    }

    /** `get_all_vertices()`: `0, 1, ..., vertices - 1`. */
    function GetAllVertices(): (r: seq<int>)
      reads this
      ensures |r| == if vertices < 0 then 0 else vertices
      ensures forall i :: 0 <= i < |r| ==> r[i] == i
    {
      var n := if vertices < 0 then 0 else vertices;
      seq(n, i requires 0 <= i < n => i)
    }

    /**
     * The data of `save_to_json`: one record `(u, v, w)` per entry `(v, w)` of `u`'s list,
     * keys in insertion order and each list in order.
     */
    function Save(): (d: Document)
      reads this
      requires Valid()
      ensures d.vertices == vertices && d.directed == directed && d.names == vertexNames
      ensures d.edges == EdgeList(edges)
      ensures forall e :: multiset(d.edges)[e] == multiset(Neighbors(edges, e.from))[Entry(e.to, e.weight)]
    {
      forall e
        ensures multiset(EdgeList(edges))[e] == multiset(Neighbors(edges, e.from))[Entry(e.to, e.weight)]
      {
        EdgeListCount(edges, e);
      }
      Document(vertices, directed, vertexNames, EdgeList(edges))
    }

    /**
     * `load_from_json` after parsing: a fresh graph of the saved kind and size, the saved
     * names, and the records replayed in order through `add_edge`, except self-loop
     * records of a directed graph.
     */
    static method Load(d: Document) returns (g: Graph)
      ensures fresh(g) && g.Valid()
      ensures g.vertices == d.vertices && g.directed == d.directed && g.vertexNames == d.names
      ensures g.edges == Replay(Empty, d.edges, d.directed)
    {
      g := new Graph(d.vertices, d.directed);
      g.vertexNames := d.names;
      g.AddRecords(d.edges);
    }

    /** The loop of `load_from_json`: each record in turn, through `add_edge` unless it is skipped. */
    method AddRecords(rs: seq<Edge>)
      requires Valid()
      modifies this
      ensures Valid() && vertexNames == old(vertexNames)
      ensures edges == Replay(old(edges), rs, directed)
    {
      ghost var start := edges;
      for i := 0 to |rs|
        invariant Valid() && vertexNames == old(vertexNames)
        invariant edges == Replay(start, rs[..i], directed)
      {
        var e := rs[i];
        ReplayStep(start, rs, i, directed);
        if !directed || e.to != e.from {
          AddEdge(e.from, e.to, e.weight);
        }
      }
      assert rs[..|rs|] == rs;
    }
  }

  /** One iteration of the reload loop. */
  function LoadRecord(a: Adj, e: Edge, directed: bool): (r: Adj)
    requires Valid(a)
    ensures Valid(r)
  {
    if !directed || e.to != e.from then AddEdge(a, e.from, e.to, e.weight, directed) else a
  }

  /** The reload loop over the records `rs`, starting from the store `a`. */
  function Replay(a: Adj, rs: seq<Edge>, directed: bool): (r: Adj)
    requires Valid(a)
    ensures Valid(r)
    decreases |rs|
  {
    if rs == [] then a
    else
      var b := Replay(a, rs[..|rs| - 1], directed);
      LoadRecord(b, rs[|rs| - 1], directed)
  }

  lemma ReplayStep(a: Adj, rs: seq<Edge>, i: nat, directed: bool)
    requires Valid(a) && i < |rs|
    ensures Replay(a, rs[..i + 1], directed) == LoadRecord(Replay(a, rs[..i], directed), rs[i], directed)
  {
    assert rs[..i + 1][..i] == rs[..i];
  }

  lemma {:induction false} ReplayConcat(a: Adj, xs: seq<Edge>, ys: seq<Edge>, directed: bool)
    requires Valid(a)
    ensures Replay(a, xs + ys, directed) == Replay(Replay(a, xs, directed), ys, directed)
    decreases |ys|
  {
    if ys == [] {
      assert xs + ys == xs;
    } else {
      assert (xs + ys)[..|xs + ys| - 1] == xs + ys[..|ys| - 1];
      ReplayConcat(a, xs, ys[..|ys| - 1], directed);
    }
  }

  /** The store holding exactly the lists of `ks`, in that key order. */
  function Prefix(a: Adj, ks: seq<int>): Adj
    requires forall k :: k in ks ==> k in a.lists
  {
    Adj(ks, map k | k in ks :: a.lists[k])
  }

  ghost predicate NoSelfLoops(a: Adj)
  {
    forall e :: HasEdge(a, e) ==> e.from != e.to
  }

  /** Replaying one list of a directed graph without self-loops re-creates that list under a new key. */
  lemma {:induction false} RowReplay(b: Adj, u: int, es: seq<Entry>)
    requires Valid(b) && u !in b.lists && es != []
    requires forall i :: 0 <= i < |es| ==> es[i].target != u
    ensures Replay(b, Row(u, es), true) == Adj(b.keys + [u], b.lists[u := es])
    decreases |es|
  {
    var init, last := es[..|es| - 1], es[|es| - 1];
    var rs := Row(u, es);
    var c := Replay(b, Row(u, init), true);
    assert Replay(b, rs, true) == Append(c, u, last) by {
      assert rs[..|rs| - 1] == Row(u, init);
      assert rs[|rs| - 1] == Edge(u, last.target, last.weight);
      ReplayLast(b, rs, true);
    }
    SplitLast(es);
    if init == [] {
      assert c == b;
    } else {
      RowReplay(b, u, init);
      assert b.lists[u := init][u := es] == b.lists[u := es];
    }
  }

  lemma SplitLast<T>(s: seq<T>)
    requires s != []
    ensures s == s[..|s| - 1] + [s[|s| - 1]]
  {
  }

  lemma {:induction false} PrefixReplay(a: Adj, ks: seq<int>)
    requires Valid(a) && NoSelfLoops(a)
    requires forall k :: k in ks ==> k in a.lists
    requires forall i, j :: 0 <= i < j < |ks| ==> ks[i] != ks[j]
    ensures Valid(Prefix(a, ks))
    ensures Replay(Empty, EdgesOf(a, ks), true) == Prefix(a, ks)
  {
    if ks == [] {
      assert Prefix(a, ks) == Empty;
    } else {
      var init, last := ks[..|ks| - 1], ks[|ks| - 1];
      assert last in ks;
      assert forall k :: k in init ==> k in ks;
      assert last !in init;
      PrefixReplay(a, init);
      ReplayConcat(Empty, EdgesOf(a, init), Row(last, a.lists[last]), true);
      var es := a.lists[last];
      forall i | 0 <= i < |es|
        ensures es[i].target != last
      {
        assert HasEdge(a, Edge(last, es[i].target, es[i].weight));
      }
      RowReplay(Prefix(a, init), last, es);
      PrefixAppend(a, ks);
    }
  }

  /** Taking one more key into the prefix appends it and maps it to its list. */
  lemma PrefixAppend(a: Adj, ks: seq<int>)
    requires ks != [] && forall k :: k in ks ==> k in a.lists
    ensures var init, last := ks[..|ks| - 1], ks[|ks| - 1];
      Prefix(a, ks) == Adj(Prefix(a, init).keys + [last], Prefix(a, init).lists[last := a.lists[last]])
  {
    var init, last := ks[..|ks| - 1], ks[|ks| - 1];
    assert init + [last] == ks;
    assert Prefix(a, init).lists[last := a.lists[last]] == Prefix(a, ks).lists;
  }

  /**
   * A directed graph without self-loops that is saved and loaded again is the same store:
   * the same keys in the same order, and every list with the same entries in the same order.
   */
  lemma ReloadDirectedRestores(a: Adj)
    requires Valid(a) && NoSelfLoops(a)
    ensures Replay(Empty, EdgeList(a), true) == a
  {
    PrefixReplay(a, a.keys);
    assert forall k :: k in Prefix(a, a.keys).lists <==> k in a.lists;
    assert Prefix(a, a.keys).lists == a.lists;
  }

  /** One record adds its entry to its source and, undirected, the reverse entry to its target. */
  lemma LoadRecordOccurrences(c: Adj, e: Edge, directed: bool, x: int, y: int, z: int)
    requires Valid(c)
    ensures Occurrences(LoadRecord(c, e, directed), x, Entry(y, z)) == Occurrences(c, x, Entry(y, z))
      + (if (!directed || e.to != e.from) && e == Edge(x, y, z) then 1 else 0)
      + (if !directed && e == Edge(y, x, z) then 1 else 0)
  {
    if !directed || e.to != e.from {
      AddedOccurrences(c, e.from, e.to, e.weight, directed, x, y, z);
    }
  }

  lemma AddedOccurrences(c: Adj, u: int, v: int, w: int, directed: bool, x: int, y: int, z: int)
    requires Valid(c)
    ensures Occurrences(AddEdge(c, u, v, w, directed), x, Entry(y, z)) == Occurrences(c, x, Entry(y, z))
      + (if x == u && y == v && z == w then 1 else 0) + (if !directed && x == v && y == u && z == w then 1 else 0)
  {
    AddEdgeEntries(c, u, v, w, directed, x, Entry(y, z));
  }

  /** The replay of `init + [e]` is the replay of `init` followed by the record `e`. */
  lemma ReplayLast(b: Adj, rs: seq<Edge>, directed: bool)
    requires Valid(b) && rs != []
    ensures Replay(b, rs, directed) == LoadRecord(Replay(b, rs[..|rs| - 1], directed), rs[|rs| - 1], directed)
  {
  }

  /** One more record counts once more for the triple it equals. */
  lemma CountLast(rs: seq<Edge>, e: Edge)
    requires rs != []
    ensures multiset(rs)[e] == multiset(rs[..|rs| - 1])[e] + (if rs[|rs| - 1] == e then 1 else 0)
  {
    assert rs == rs[..|rs| - 1] + [rs[|rs| - 1]];
  }

  /** Directed replay: an entry is added once per matching record, self-loop records are skipped. */
  lemma {:induction false} ReplayDirectedCount(b: Adj, rs: seq<Edge>, x: int, y: int, z: int)
    requires Valid(b)
    ensures Occurrences(Replay(b, rs, true), x, Entry(y, z)) ==
      Occurrences(b, x, Entry(y, z)) + (if y == x then 0 else multiset(rs)[Edge(x, y, z)])
    decreases |rs|
  {
    if rs != [] {
      var init, e := rs[..|rs| - 1], rs[|rs| - 1];
      ReplayLast(b, rs, true);
      CountLast(rs, Edge(x, y, z));
      CountLast(rs, Edge(y, x, z));
      ReplayDirectedCount(b, init, x, y, z);
      LoadRecordOccurrences(Replay(b, init, true), e, true, x, y, z);
    }
  }

  /** Undirected replay: each record `(u, v, w)` adds `(v, w)` to `u` and `(u, w)` to `v`. */
  lemma {:induction false} ReplayUndirectedCount(b: Adj, rs: seq<Edge>, x: int, y: int, z: int)
    requires Valid(b)
    ensures Occurrences(Replay(b, rs, false), x, Entry(y, z)) ==
      Occurrences(b, x, Entry(y, z)) + multiset(rs)[Edge(x, y, z)] + multiset(rs)[Edge(y, x, z)]
    decreases |rs|
  {
    if rs != [] {
      var init, e := rs[..|rs| - 1], rs[|rs| - 1];
      ReplayLast(b, rs, false);
      CountLast(rs, Edge(x, y, z));
      CountLast(rs, Edge(y, x, z));
      ReplayUndirectedCount(b, init, x, y, z);
      LoadRecordOccurrences(Replay(b, init, false), e, false, x, y, z);
    }
  }

  /**
   * A directed graph that is saved and loaded again loses its self-loops and keeps every
   * other entry as often as before.
   */
  lemma ReloadDirectedDropsSelfLoops(a: Adj, x: int, y: int, z: int)
    requires Valid(a)
    ensures Occurrences(Replay(Empty, EdgeList(a), true), x, Entry(y, z)) ==
      if y == x then 0 else Occurrences(a, x, Entry(y, z))
  {
    ReplayDirectedCount(Empty, EdgeList(a), x, y, z);
    EdgeListCount(a, Edge(x, y, z));
  }

  /**
   * An undirected graph built by `add_edge` that is saved and loaded again holds every entry
   * twice as often as before: each record is re-added with its reverse, and the reverse has
   * its own record too.
   */
  lemma ReloadUndirectedDoubles(a: Adj, x: int, y: int, z: int)
    requires Valid(a) && Symmetric(a)
    ensures Occurrences(Replay(Empty, EdgeList(a), false), x, Entry(y, z)) == 2 * Occurrences(a, x, Entry(y, z))
  {
    ReplayUndirectedCount(Empty, EdgeList(a), x, y, z);
    EdgeListCount(a, Edge(x, y, z));
    EdgeListCount(a, Edge(y, x, z));
    assert Occurrences(a, y, Entry(x, z)) == Occurrences(a, x, Entry(y, z));
  }
}
