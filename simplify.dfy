/**
 * `SimplifyGraph` of `MetricOrientedGraph` as its authors intended it: each list loses its
 * loops and keeps, of each run of pairs with the same target, only the first, which in a
 * sorted list is the lightest. Shortest distances are unchanged by this. The code as
 * written is modelled in `AsWritten`.
 */
module Simplify {
  import opened Pairs
  import opened Graphs
  import opened Walks

  /** Every list is sorted, as `CheckGraphValidity` demands. */
  ghost predicate SortedLists(g: Graph) {
    forall u :: 0 <= u < |g| ==> Sorted(g[u])
  }

  /** `SimplifyGraph` keeps pair `j` of the list of `vertex`: no loop, and a target new to the run. */
  predicate Kept(list: seq<Pair>, j: int, vertex: int)
    requires 0 <= j < |list|
  {
    list[j].First != vertex && (j == 0 || list[j].First != list[j - 1].First)
  }

  /** The list that `SimplifyGraph` builds from `list`, the list of `vertex`: the kept pairs in order. */
  function SimplifiedList(list: seq<Pair>, vertex: int): seq<Pair>
  {
    if |list| == 0 then []
    else SimplifiedList(list[..|list| - 1], vertex) + if Kept(list, |list| - 1, vertex) then [list[|list| - 1]] else []
  }

  /** The graph that `SimplifyGraph` builds. */
  ghost function Simplified(g: Graph): Graph {
    seq(|g|, u requires 0 <= u < |g| => SimplifiedList(g[u], u + 1))
  }

  /** Whether a pair is kept depends only on the pairs up to it. */
  lemma KeptPrefix(list: seq<Pair>, n: int, j: int, vertex: int)
    requires 0 <= j < n <= |list|
    ensures Kept(list[..n], j, vertex) == Kept(list, j, vertex)
  {
  }

  /** Every pair of the simplified list is a kept pair of `list`: no loop among them. */
  lemma {:induction false} SimplifiedListFrom(list: seq<Pair>, vertex: int, k: int)
    requires 0 <= k < |SimplifiedList(list, vertex)|
    ensures exists j :: 0 <= j < |list| && Kept(list, j, vertex) && list[j] == SimplifiedList(list, vertex)[k]
    ensures SimplifiedList(list, vertex)[k].First != vertex
  {
    var n := |list| - 1;
    var r' := SimplifiedList(list[..n], vertex);
    if k < |r'| {
      SimplifiedListFrom(list[..n], vertex, k);
      var j :| 0 <= j < n && Kept(list[..n], j, vertex) && list[..n][j] == r'[k];
      KeptPrefix(list, n, j, vertex);
    } else {
      assert Kept(list, n, vertex);
    }
  }

  /** Every kept pair of `list` is in the simplified list. */
  lemma {:induction false} SimplifiedListHas(list: seq<Pair>, vertex: int, j: int)
    requires 0 <= j < |list| && Kept(list, j, vertex)
    ensures list[j] in SimplifiedList(list, vertex)
  {
    var n := |list| - 1;
    if j < n {
      KeptPrefix(list, n, j, vertex);
      SimplifiedListHas(list[..n], vertex, j);
      assert list[..n][j] == list[j];
    }
  }

  /**
   * In a sorted list, every pair that is not a loop has a pair with the same target and no
   * greater weight in the simplified list: the first of its run.
   */
  lemma {:induction false} SimplifiedListCovers(list: seq<Pair>, vertex: int, j: int)
    requires Sorted(list) && 0 <= j < |list| && list[j].First != vertex
    ensures exists k :: 0 <= k < |SimplifiedList(list, vertex)| &&
              SimplifiedList(list, vertex)[k].First == list[j].First &&
              SimplifiedList(list, vertex)[k].Second <= list[j].Second
    decreases j
  {
    var r := SimplifiedList(list, vertex);
    if Kept(list, j, vertex) {
      SimplifiedListHas(list, vertex, j);
      var k :| 0 <= k < |r| && r[k] == list[j];
    } else {
      assert LessOrEqual(list[j - 1], list[j]);
      SimplifiedListCovers(list, vertex, j - 1);
    }
  }

  lemma SortedPrefix(list: seq<Pair>, n: int)
    requires Sorted(list) && 0 <= n <= |list|
    ensures Sorted(list[..n])
  {
  }

  /** Each target is greater than the one before it, so no target occurs twice. */
  ghost predicate IncreasingTargets(r: seq<Pair>) {
    forall k :: 0 <= k < |r| - 1 ==> r[k].First < r[k + 1].First
  }

  lemma IncreasingAppend(r: seq<Pair>, p: Pair)
    requires IncreasingTargets(r) && (|r| > 0 ==> r[|r| - 1].First < p.First)
    ensures IncreasingTargets(r + [p])
  {
    var r' := r + [p];
    forall k | 0 <= k < |r'| - 1
      ensures r'[k].First < r'[k + 1].First
    {
      if k < |r| - 1 {
        assert r'[k] == r[k] && r'[k + 1] == r[k + 1];
      }
    }
  }

  /** In a sorted list, the simplified list has strictly increasing targets. */
  lemma {:induction false} SimplifiedListIncreasing(list: seq<Pair>, vertex: int)
    requires Sorted(list)
    ensures IncreasingTargets(SimplifiedList(list, vertex))
  {
    var r := SimplifiedList(list, vertex);
    if |list| > 0 {
      var n := |list| - 1;
      var r' := SimplifiedList(list[..n], vertex);
      SortedPrefix(list, n);
      SimplifiedListIncreasing(list[..n], vertex);
      if Kept(list, n, vertex) {
        assert r == r' + [list[n]];
        if |r'| > 0 {
          SimplifiedListFrom(list[..n], vertex, |r'| - 1);
          var j :| 0 <= j < n && Kept(list[..n], j, vertex) && list[..n][j] == r'[|r'| - 1];
          SortedAllPairs(list, j, n - 1);
          assert LessOrEqual(list[n - 1], list[n]);
        }
        IncreasingAppend(r', list[n]);
      } else {
        assert r == r';
      }
    }
  }

  /** The simplified list of a sorted list is sorted. */
  lemma SimplifiedListSorted(list: seq<Pair>, vertex: int)
    requires Sorted(list)
    ensures Sorted(SimplifiedList(list, vertex))
  {
    SimplifiedListIncreasing(list, vertex);
  }

  /** Simplifying keeps targets in range and weights non-negative. */
  lemma SimplifiedWellFormed(g: Graph)
    requires TargetsInRange(g)
    ensures TargetsInRange(Simplified(g))
    ensures NonNegativeWeights(g) ==> NonNegativeWeights(Simplified(g))
  {
    var sg := Simplified(g);
    forall u, k | 0 <= u < |sg| && 0 <= k < |sg[u]|
      ensures exists j :: 0 <= j < |g[u]| && g[u][j] == sg[u][k]
    {
      SimplifiedListFrom(g[u], u + 1, k);
    }
  }

  /** A walk of the simplified graph is a walk of the same length in the graph. */
  lemma {:induction false} SimplifiedWalkIsWalk(g: Graph, s: int, x: int, walk: seq<Hop>) returns (walk': seq<Hop>)
    requires TargetsInRange(g) && IsWalk(Simplified(g), s, x, walk)
    ensures IsWalk(g, s, x, walk') && WalkWeight(g, walk') == WalkWeight(Simplified(g), walk)
    decreases |walk|
  {
    var sg := Simplified(g);
    if |walk| == 0 {
      walk' := [];
    } else {
      var n := |walk| - 1;
      var h := walk[n];
      WalkPrefix(sg, s, x, walk);
      var prefix := SimplifiedWalkIsWalk(g, s, h.from, walk[..n]);
      walk' := UnsimplifyHop(g, s, h, prefix);
    }
  }

  /** A hop of the simplified graph is a hop of the graph with the same target and weight. */
  lemma UnsimplifyHop(g: Graph, s: int, h: Hop, prefix: seq<Hop>) returns (walk': seq<Hop>)
    requires TargetsInRange(g) && HopValid(Simplified(g), h) && IsWalk(g, s, h.from, prefix)
    ensures IsWalk(g, s, HopTarget(Simplified(g), h), walk')
    ensures WalkWeight(g, walk') == WalkWeight(g, prefix) + HopWeight(Simplified(g), h)
  {
    var sg := Simplified(g);
    var list := g[h.from];
    assert sg[h.from] == SimplifiedList(list, h.from + 1);
    SimplifiedListFrom(list, h.from + 1, h.index);
    var j :| 0 <= j < |list| && Kept(list, j, h.from + 1) && list[j] == SimplifiedList(list, h.from + 1)[h.index];
    WalkExtend(g, s, h.from, prefix, Hop(h.from, j));
    walk' := prefix + [Hop(h.from, j)];
  }

  /**
   * A walk of a graph with sorted lists and non-negative weights has a walk of the simplified
   * graph between the same vertices that is no longer: loops are dropped and each edge is
   * replaced by the first of its run.
   */
  lemma {:induction false} WalkSimplifies(g: Graph, s: int, x: int, walk: seq<Hop>) returns (walk': seq<Hop>)
    requires TargetsInRange(g) && NonNegativeWeights(g) && SortedLists(g) && IsWalk(g, s, x, walk)
    ensures IsWalk(Simplified(g), s, x, walk') && WalkWeight(Simplified(g), walk') <= WalkWeight(g, walk)
    decreases |walk|
  {
    var sg := Simplified(g);
    if |walk| == 0 {
      walk' := [];
    } else {
      var n := |walk| - 1;
      var u := walk[n].from;
      WalkPrefix(g, s, x, walk);
      var prefix := WalkSimplifies(g, s, u, walk[..n]);
      walk' := SimplifyHop(g, s, walk, prefix);
    }
  }

  /** The last hop of `walk`, after a simplified walk `prefix` to the vertex it leaves. */
  lemma SimplifyHop(g: Graph, s: int, walk: seq<Hop>, prefix: seq<Hop>) returns (walk': seq<Hop>)
    requires TargetsInRange(g) && NonNegativeWeights(g) && SortedLists(g) && |walk| > 0
    requires forall k :: 0 <= k < |walk| ==> HopValid(g, walk[k])
    requires IsWalk(Simplified(g), s, walk[|walk| - 1].from, prefix)
    requires WalkWeight(Simplified(g), prefix) <= WalkWeight(g, walk[..|walk| - 1])
    ensures IsWalk(Simplified(g), s, HopTarget(g, walk[|walk| - 1]), walk')
    ensures WalkWeight(Simplified(g), walk') <= WalkWeight(g, walk)
  {
    var sg: Graph := Simplified(g);
    var n := |walk| - 1;
    var h: Hop := walk[n];
    var u: int := h.from;
    var t: int := HopTarget(g, h);
    assert WalkWeight(g, walk) == WalkWeight(g, walk[..n]) + HopWeight(g, h);
    assert HopWeight(g, h) >= 0.0;
    if t == u {
      walk' := prefix;
    } else {
      SimplifiedListCovers(g[u], u + 1, h.index);
      var k: int :| 0 <= k < |sg[u]| && sg[u][k].First == t + 1 && sg[u][k].Second <= HopWeight(g, h);
      SimplifiedWellFormed(g);
      WalkExtend(sg, s, u, prefix, Hop(u, k));
      walk' := prefix + [Hop(u, k)];
    }
  }

  /**
   * With sorted lists and non-negative weights the simplified graph has the same shortest
   * distances as the graph.
   */
  lemma SimplifiedDistances(g: Graph, s: int, d: seq<Distance>)
    requires TargetsInRange(g) && NonNegativeWeights(g) && SortedLists(g)
    ensures IsShortestDistances(Simplified(g), s, d) <==> IsShortestDistances(g, s, d)
  {
    var sg := Simplified(g);
    if |d| == |g| {
      forall x | 0 <= x < |g|
        ensures IsShortestDistance(sg, s, x, d[x]) <==> IsShortestDistance(g, s, x, d[x])
      {
        SimplifiedDistance(g, s, x, d[x]);
      }
    }
  }

  lemma SimplifiedDistance(g: Graph, s: int, x: int, dx: Distance)
    requires TargetsInRange(g) && NonNegativeWeights(g) && SortedLists(g)
    ensures IsShortestDistance(Simplified(g), s, x, dx) <==> IsShortestDistance(g, s, x, dx)
  {
    var sg := Simplified(g);
    if IsShortestDistance(sg, s, x, dx) {
      if dx.Finite? {
        var w :| IsWalk(sg, s, x, w) && WalkWeight(sg, w) == dx.value;
        var w' := SimplifiedWalkIsWalk(g, s, x, w);
      }
      forall walk | IsWalk(g, s, x, walk)
        ensures dx.Finite? && dx.value <= WalkWeight(g, walk)
      {
        var w' := WalkSimplifies(g, s, x, walk);
      }
    }
    if IsShortestDistance(g, s, x, dx) {
      if dx.Finite? {
        var w :| IsWalk(g, s, x, w) && WalkWeight(g, w) == dx.value;
        var w' := WalkSimplifies(g, s, x, w);
        var w'' := SimplifiedWalkIsWalk(g, s, x, w');
      }
      forall walk | IsWalk(sg, s, x, walk)
        ensures dx.Finite? && dx.value <= WalkWeight(sg, walk)
      {
        var w' := SimplifiedWalkIsWalk(g, s, x, walk);
      }
    }
  }

  /**
   * `SimplifyGraph(graph)`: a new graph whose list of each vertex holds the kept pairs of
   * its list in `graph`, in order.
   */
  method SimplifyGraph(graph: array<seq<Pair>>) returns (newGraph: array<seq<Pair>>)
    ensures fresh(newGraph) && newGraph.Length == graph.Length
    ensures forall u :: 0 <= u < graph.Length ==> newGraph[u] == SimplifiedList(graph[u], u + 1)
  {
    newGraph := new seq<Pair>[graph.Length];
    var i := 0;
    while i < newGraph.Length
      invariant 0 <= i <= newGraph.Length == graph.Length
      invariant forall u :: 0 <= u < i ==> newGraph[u] == SimplifiedList(graph[u], u + 1)
    {
      var list := graph[i];
      var simple: seq<Pair> := [];
      if |list| > 0 && list[0].First != i + 1 {
        simple := simple + [list[0]];
      }
      assert |list| > 0 ==> simple == SimplifiedList(list[..1], i + 1);
      var j := 1;
      while j < |list|
        invariant |list| > 0 ==> 1 <= j <= |list| && simple == SimplifiedList(list[..j], i + 1)
        invariant |list| == 0 ==> simple == []
      {
        if list[j].First != i + 1 && list[j].First != list[j - 1].First {
          simple := simple + [list[j]];
        }
        assert list[..j + 1][..j] == list[..j];
        j := j + 1;
      }
      assert |list| > 0 ==> list[..j] == list;
      newGraph[i] := simple;
      i := i + 1;
    }
  }
}
