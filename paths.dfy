/**
 * Reachability in a graph of `MetricOrientedGraph`, the notions that the depth-first
 * search and the strongly-connected-component count are specified with. Vertices are
 * the 0-based list indices; an edge `u -> v` is a pair `(v + 1, w)` in list `u`.
 */
module Paths {
  import opened Pairs
  import opened Graphs

  ghost predicate Edge(g: Graph, u: int, v: int) {
    0 <= u < |g| && exists j :: 0 <= j < |g[u]| && g[u][j].First == v + 1
  }

  /** A non-empty sequence of vertices, each joined to the next by an edge. */
  ghost predicate IsPath(g: Graph, p: seq<int>) {
    && |p| >= 1
    && (forall k :: 0 <= k < |p| ==> 0 <= p[k] < |g|)
    && (forall k :: 0 <= k < |p| - 1 ==> Edge(g, p[k], p[k + 1]))
  }

  ghost predicate Reachable(g: Graph, s: int, x: int) {
    exists p :: IsPath(g, p) && p[0] == s && p[|p| - 1] == x
  }

  /** Every vertex reaches every vertex. */
  ghost predicate StronglyConnected(g: Graph) {
    forall s, x :: 0 <= s < |g| && 0 <= x < |g| ==> Reachable(g, s, x)
  }

  /** Every vertex of `p` after the first is unmarked. */
  ghost predicate Avoids(p: seq<int>, marked: seq<bool>) {
    forall k :: 1 <= k < |p| ==> 0 <= p[k] < |marked| && !marked[p[k]]
  }

  /** `x` is reached from `s` through vertices that are all unmarked (except perhaps `s`). */
  ghost predicate ReachableAvoiding(g: Graph, marked: seq<bool>, s: int, x: int) {
    exists p :: IsPath(g, p) && p[0] == s && p[|p| - 1] == x && Avoids(p, marked)
  }

  /** Every successor of `u` is marked. */
  ghost predicate SuccessorsMarked(g: Graph, marked: seq<bool>, u: int)
    requires 0 <= u < |g|
  {
    forall j :: 0 <= j < |g[u]| ==> 1 <= g[u][j].First <= |marked| && marked[g[u][j].First - 1]
  }

  /** The marked set is closed under edges. */
  ghost predicate Closed(g: Graph, marked: seq<bool>) {
    |marked| == |g| && forall u {:trigger SuccessorsMarked(g, marked, u)} :: 0 <= u < |g| && marked[u] ==> SuccessorsMarked(g, marked, u)
  }

  /** `b` marks at least what `a` marks. */
  ghost predicate Grows(a: seq<bool>, b: seq<bool>) {
    |a| == |b| && forall k :: 0 <= k < |a| && a[k] ==> b[k]
  }

  lemma ReachableAvoidingSelf(g: Graph, marked: seq<bool>, s: int)
    requires 0 <= s < |g|
    ensures ReachableAvoiding(g, marked, s, s)
  {
    assert IsPath(g, [s]) && Avoids([s], marked);
  }

  lemma EdgeOf(g: Graph, u: int, j: int)
    requires 0 <= u < |g| && 0 <= j < |g[u]|
    ensures Edge(g, u, g[u][j].First - 1)
  {
  }

  /**
   * A step `s -> u` to an unmarked `u`, followed by a path from `u` that avoids a larger
   * marking, is a path from `s` that avoids the smaller one.
   */
  lemma ReachableAvoidingPrepend(g: Graph, before: seq<bool>, mid: seq<bool>, s: int, u: int, x: int)
    requires Edge(g, s, u) && Grows(before, mid) && 0 <= u < |mid| && !mid[u]
    requires ReachableAvoiding(g, mid, u, x)
    ensures ReachableAvoiding(g, before, s, x)
  {
    var p :| IsPath(g, p) && p[0] == u && p[|p| - 1] == x && Avoids(p, mid);
    var q := [s] + p;
    assert forall k :: 1 <= k < |q| ==> q[k] == p[k - 1];
    assert IsPath(g, q);
    assert Avoids(q, before);
  }

  /** A path that avoids a marking is a path. */
  lemma ReachableAvoidingIsReachable(g: Graph, marked: seq<bool>, s: int, x: int)
    requires ReachableAvoiding(g, marked, s, x)
    ensures Reachable(g, s, x)
  {
  }

  /** With nothing marked, avoiding the marking is no constraint. */
  lemma ReachableAvoidingNothing(g: Graph, marked: seq<bool>, s: int, x: int)
    requires |marked| == |g| && forall k :: 0 <= k < |marked| ==> !marked[k]
    ensures ReachableAvoiding(g, marked, s, x) <==> Reachable(g, s, x)
  {
    if Reachable(g, s, x) {
      var p :| IsPath(g, p) && p[0] == s && p[|p| - 1] == x;
      assert Avoids(p, marked);
    }
  }

  lemma {:induction false} ReachableTransitive(g: Graph, a: int, b: int, c: int)
    requires Reachable(g, a, b) && Reachable(g, b, c)
    ensures Reachable(g, a, c)
  {
    var p :| IsPath(g, p) && p[0] == a && p[|p| - 1] == b;
    var q :| IsPath(g, q) && q[0] == b && q[|q| - 1] == c;
    var r := p + q[1..];
    assert forall k :: |p| <= k < |r| ==> r[k] == q[k - |p| + 1];
    forall k | 0 <= k < |r| - 1
      ensures Edge(g, r[k], r[k + 1])
    {
      if k == |p| - 1 {
        assert r[k] == q[0] && r[k + 1] == q[1];
      } else if k < |p| - 1 {
        assert r[k] == p[k] && r[k + 1] == p[k + 1];
      }
    }
    assert IsPath(g, r);
  }

  /**
   * Search closure: if `s` and every vertex marked in `after` but not in `before` have all
   * their successors marked, then every vertex reached from `s` through vertices unmarked
   * in `before` is marked in `after`.
   */
  lemma ClosedReachesMarked(g: Graph, before: seq<bool>, after: seq<bool>, s: int, x: int)
    requires Grows(before, after) && |after| == |g| && 0 <= s < |g| && after[s]
    requires SuccessorsMarked(g, after, s)
    requires forall k :: 0 <= k < |g| && after[k] && !before[k] ==> SuccessorsMarked(g, after, k)
    requires ReachableAvoiding(g, before, s, x)
    ensures 0 <= x < |g| && after[x]
  {
    var p :| IsPath(g, p) && p[0] == s && p[|p| - 1] == x && Avoids(p, before);
    var k := 0;
    while k < |p| - 1
      invariant 0 <= k < |p| && after[p[k]] && (k == 0 || !before[p[k]])
    {
      assert Edge(g, p[k], p[k + 1]);
      var j :| 0 <= j < |g[p[k]]| && g[p[k]][j].First == p[k + 1] + 1;
      k := k + 1;
    }
  }

  /** Nothing leaves a closed marked set. */
  lemma ClosedReachable(g: Graph, marked: seq<bool>, x: int, y: int)
    requires Closed(g, marked) && 0 <= x < |g| && marked[x] && Reachable(g, x, y)
    ensures marked[y]
  {
    var p :| IsPath(g, p) && p[0] == x && p[|p| - 1] == y;
    var k := 0;
    while k < |p| - 1
      invariant 0 <= k < |p| && marked[p[k]]
    {
      assert SuccessorsMarked(g, marked, p[k]);
      assert Edge(g, p[k], p[k + 1]);
      var j :| 0 <= j < |g[p[k]]| && g[p[k]][j].First == p[k + 1] + 1;
      k := k + 1;
    }
  }

  /** Each edge `u -> v` of `g` is the edge `v -> u` of its transpose, and the reverse. */
  lemma TransposeEdge(t: Graph, g: Graph, u: int, v: int)
    requires IsTransposeOf(t, g) && 0 <= u < |g| && 0 <= v < |g|
    ensures Edge(t, v, u) <==> Edge(g, u, v)
  {
    if Edge(g, u, v) {
      var j :| 0 <= j < |g[u]| && g[u][j].First == v + 1;
      var p := Pair(u + 1, g[u][j].Second);
      TransposeCount(t, g, v, p);
      assert g[u][j] in multiset(g[u]);
      assert p in multiset(t[v]);
      var k :| 0 <= k < |t[v]| && t[v][k] == p;
    }
    if Edge(t, v, u) {
      var k :| 0 <= k < |t[v]| && t[v][k].First == u + 1;
      var p := t[v][k];
      TransposeCount(t, g, v, p);
      assert p in multiset(t[v]);
      assert Pair(v + 1, p.Second) in multiset(g[u]);
      var j :| 0 <= j < |g[u]| && g[u][j] == Pair(v + 1, p.Second);
    }
  }

  function Reverse(p: seq<int>): (r: seq<int>)
    ensures |r| == |p| && forall k :: 0 <= k < |p| ==> r[k] == p[|p| - 1 - k]
  {
    seq(|p|, k requires 0 <= k < |p| => p[|p| - 1 - k])
  }

  /** `x` reaches `s` in `g` exactly when `s` reaches `x` in the transpose. */
  lemma ReachableTransposed(t: Graph, g: Graph, s: int, x: int)
    requires IsTransposeOf(t, g)
    ensures Reachable(t, s, x) <==> Reachable(g, x, s)
  {
    if Reachable(t, s, x) {
      var p :| IsPath(t, p) && p[0] == s && p[|p| - 1] == x;
      var r := Reverse(p);
      forall k | 0 <= k < |r| - 1
        ensures Edge(g, r[k], r[k + 1])
      {
        TransposeEdge(t, g, r[k], r[k + 1]);
      }
      assert IsPath(g, r);
    }
    if Reachable(g, x, s) {
      var p :| IsPath(g, p) && p[0] == x && p[|p| - 1] == s;
      var r := Reverse(p);
      forall k | 0 <= k < |r| - 1
        ensures Edge(t, r[k], r[k + 1])
      {
        TransposeEdge(t, g, r[k + 1], r[k]);
      }
      assert IsPath(t, r);
    }
  }
}
