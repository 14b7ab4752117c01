/**
 * Cutting closed walks out of long walks. A walk with at least as many edges as there are
 * vertices passes some vertex twice; the closed walk between the two visits is either
 * negative, or it can be cut out without making the walk heavier.
 */
module Cycles {
  import opened Adjacency
  import opened Walks

  /** Some closed walk of negative weight can be reached from `s`. */
  ghost predicate NegativeCycleFrom(a: Adj, s: int)
  {
    exists p, x, c :: IsWalk(a, p, s, x) && IsWalk(a, c, x, x) && Weight(c) < 0
  }

  /** The vertex a walk from `s` stands at after its first `k` edges. */
  function Visit(p: seq<Edge>, s: int, k: nat): int
    requires k <= |p|
  {
    if k == 0 then s else p[k - 1].to
  }

  lemma {:induction false} WeightAppend(x: seq<Edge>, y: seq<Edge>)
    ensures Weight(x + y) == Weight(x) + Weight(y)
    decreases |y|
  {
    if y != [] {
      var init := y[..|y| - 1];
      assert (x + y)[..|x + y| - 1] == x + init;
      WeightAppend(x, init);
    } else {
      assert x + y == x;
    }
  }

  /** Both parts of a walk cut after its first `k` edges are walks, meeting at `Visit(p, s, k)`. */
  lemma WalkSplit(a: Adj, p: seq<Edge>, s: int, t: int, k: nat)
    requires IsWalk(a, p, s, t) && k <= |p|
    ensures IsWalk(a, p[..k], s, Visit(p, s, k)) && IsWalk(a, p[k..], Visit(p, s, k), t)
  {
    if 0 < k < |p| {
      assert p[k - 1].to == p[k].from;
    }
  }

  /** Two walks meeting at `x` make one walk. */
  lemma WalkJoin(a: Adj, p: seq<Edge>, s: int, x: int, q: seq<Edge>, t: int)
    requires IsWalk(a, p, s, x) && IsWalk(a, q, x, t)
    ensures IsWalk(a, p + q, s, t)
  {
    var r := p + q;
    forall i | 0 <= i < |r| - 1
      ensures r[i].to == r[i + 1].from
    {
      if i + 1 < |p| {
        assert r[i] == p[i] && r[i + 1] == p[i + 1];
      } else if i + 1 == |p| {
        assert r[i] == p[|p| - 1] && r[i + 1] == q[0];
      } else {
        assert r[i] == q[i - |p|] && r[i + 1] == q[i + 1 - |p|];
      }
    }
    forall i | 0 <= i < |r|
      ensures HasEdge(a, r[i])
    {
      if i < |p| {
        assert r[i] == p[i];
      } else {
        assert r[i] == q[i - |p|];
      }
    }
  }

  /** A strictly increasing list has as many distinct elements as entries. */
  lemma {:induction false} DistinctCard(xs: seq<int>)
    requires forall i, j :: 0 <= i < j < |xs| ==> xs[i] < xs[j]
    ensures |set x | x in xs| == |xs|
  {
    if xs != [] {
      var init, last := xs[..|xs| - 1], xs[|xs| - 1];
      DistinctCard(init);
      assert (set x | x in xs) == (set x | x in init) + {last};
      assert last !in init;
    }
  }

  /** A list longer than the set holding its elements repeats an element. */
  lemma {:induction false} Pigeonhole(xs: seq<int>, s: set<int>) returns (i: nat, j: nat)
    requires forall k :: 0 <= k < |xs| ==> xs[k] in s
    requires |xs| > |s|
    ensures i < j < |xs| && xs[i] == xs[j]
  {
    var init, last := xs[..|xs| - 1], xs[|xs| - 1];
    if k :| 0 <= k < |init| && init[k] == last {
      i, j := k, |xs| - 1;
    } else {
      assert forall k :: 0 <= k < |init| ==> init[k] in s - {last};
      i, j := Pigeonhole(init, s - {last});
    }
  }

  /** A walk with at least as many edges as there are vertices stands twice at one vertex. */
  lemma Repeat(a: Adj, vs: set<int>, s: int, p: seq<Edge>, t: int) returns (i: nat, j: nat)
    requires forall e :: HasEdge(a, e) ==> e.from in vs && e.to in vs
    requires IsWalk(a, p, s, t) && p != [] && |p| >= |vs|
    ensures i < j <= |p| && Visit(p, s, i) == Visit(p, s, j)
  {
    var visits := seq(|p| + 1, k requires 0 <= k <= |p| => Visit(p, s, k));
    forall k | 0 <= k < |visits|
      ensures visits[k] in vs
    {
      assert HasEdge(a, p[0]);
      if k > 0 {
        assert HasEdge(a, p[k - 1]);
      }
    }
    i, j := Pigeonhole(visits, vs);
  }

  /** The edges of a walk from its `i`-th to its `j`-th visit form a walk between those visits. */
  lemma WalkSlice(a: Adj, p: seq<Edge>, s: int, t: int, i: nat, j: nat)
    requires IsWalk(a, p, s, t) && i <= j <= |p|
    ensures IsWalk(a, p[i..j], Visit(p, s, i), Visit(p, s, j))
  {
    var q := p[i..j];
    if q != [] {
      assert q[0] == p[i] && q[|q| - 1] == p[j - 1];
      if i > 0 {
        assert p[i - 1].to == p[i].from;
      }
    }
    forall k | 0 <= k < |q|
      ensures HasEdge(a, q[k])
    {
      assert q[k] == p[i + k];
    }
    forall k | 0 <= k < |q| - 1
      ensures q[k].to == q[k + 1].from
    {
      assert q[k] == p[i + k] && q[k + 1] == p[i + k + 1];
    }
  }

  lemma Pieces(p: seq<Edge>, i: nat, j: nat)
    requires i <= j <= |p|
    ensures p == (p[..i] + p[i..j]) + p[j..]
  {
    assert p == p[..j] + p[j..];
    assert p[..j] == p[..i] + p[i..j];
  }

  /**
   * Cutting the closed walk between two visits of `x` out of a walk leaves a walk with the
   * same ends; the weights of the two pieces add up to the weight of the whole.
   */
  lemma Cut(a: Adj, p: seq<Edge>, s: int, t: int, i: nat, j: nat, x: int)
    requires IsWalk(a, p, s, t) && i < j <= |p| && Visit(p, s, i) == x && Visit(p, s, j) == x
    ensures IsWalk(a, p[..i], s, x) && IsWalk(a, p[i..j], x, x) && IsWalk(a, p[..i] + p[j..], s, t)
    ensures Weight(p) == Weight(p[..i] + p[j..]) + Weight(p[i..j])
  {
    var pre, c, rest := p[..i], p[i..j], p[j..];
    assert IsWalk(a, pre, s, x) by {
      WalkSlice(a, p, s, t, 0, i);
      assert p[0..i] == pre;
    }
    assert IsWalk(a, c, x, x) by {
      WalkSlice(a, p, s, t, i, j);
    }
    assert IsWalk(a, rest, x, t) by {
      WalkSlice(a, p, s, t, j, |p|);
      assert p[j..|p|] == rest;
      assert Visit(p, s, |p|) == t;
    }
    WalkJoin(a, pre, s, x, rest, t);
    Pieces(p, i, j);
    WeightAppend(pre + c, rest);
    WeightAppend(pre, c);
    WeightAppend(pre, rest);
  }

  /**
   * Every walk from `s` to `t` either reaches a negative closed walk, or can be traded for a
   * walk from `s` to `t` that is no heavier and has fewer edges than there are vertices.
   */
  lemma ShortenOrCycle(a: Adj, vs: set<int>, s: int, p: seq<Edge>, t: int)
    returns (found: bool, q: seq<Edge>, pre: seq<Edge>, x: int, c: seq<Edge>)
    requires forall e :: HasEdge(a, e) ==> e.from in vs && e.to in vs
    requires IsWalk(a, p, s, t)
    ensures found ==> IsWalk(a, pre, s, x) && IsWalk(a, c, x, x) && Weight(c) < 0
    ensures !found ==> IsWalk(a, q, s, t) && Weight(q) <= Weight(p) && (q == [] || |q| < |vs|)
    decreases |p|
  {
    if p == [] || |p| < |vs| {
      return false, p, [], s, [];
    }
    var i, j := Repeat(a, vs, s, p, t);
    x := Visit(p, s, i);
    Cut(a, p, s, t, i, j, x);
    if Weight(p[i..j]) < 0 {
      return true, [], p[..i], x, p[i..j];
    }
    found, q, pre, x, c := ShortenOrCycle(a, vs, s, p[..i] + p[j..], t);
  }
}
