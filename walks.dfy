/**
 * Weighted walks and shortest distances in a graph of `MetricOrientedGraph`, the notions
 * that `Dijkstra`, `SimplifyGraph` and `FindSaturationTime` are specified with. A walk is
 * a sequence of edge choices, so that parallel edges of different weights stay apart.
 */
module Walks {
  import opened Pairs
  import opened Graphs
  import opened Paths

  /** One step of a walk: the pair at index `index` of the list of the 0-based vertex `from`. */
  datatype Hop = Hop(from: int, index: int)

  ghost predicate HopValid(g: Graph, h: Hop) {
    0 <= h.from < |g| && 0 <= h.index < |g[h.from]| && 1 <= g[h.from][h.index].First <= |g|
  }

  /** The 0-based vertex a hop enters. */
  ghost function HopTarget(g: Graph, h: Hop): int
    requires HopValid(g, h)
  {
    g[h.from][h.index].First - 1
  }

  ghost function HopWeight(g: Graph, h: Hop): real
    requires HopValid(g, h)
  {
    g[h.from][h.index].Second
  }

  /** `walk` leads from `s` to `x`, each hop leaving the vertex the previous one entered. */
  ghost predicate IsWalk(g: Graph, s: int, x: int, walk: seq<Hop>) {
    && 0 <= s < |g|
    && (forall k :: 0 <= k < |walk| ==> HopValid(g, walk[k]))
    && (|walk| == 0 ==> x == s)
    && (|walk| > 0 ==> walk[0].from == s && HopTarget(g, walk[|walk| - 1]) == x)
    && (forall k :: 0 < k < |walk| ==> walk[k].from == HopTarget(g, walk[k - 1]))
  }

  /** The sum of the weights of the hops of `walk`. */
  ghost function WalkWeight(g: Graph, walk: seq<Hop>): real
    requires forall k :: 0 <= k < |walk| ==> HopValid(g, walk[k])
  {
    if |walk| == 0 then 0.0 else WalkWeight(g, walk[..|walk| - 1]) + HopWeight(g, walk[|walk| - 1])
  }

  /**
   * A distance of the source's `double[]`: a length, or the sentinel `double.MaxValue`,
   * which stands for "not reached".
   */
  datatype Distance = Finite(value: real) | Infinite

  /** `a < b` on such doubles: the sentinel is greater than every length. */
  predicate Shorter(a: Distance, b: Distance) {
    match a
    case Infinite => false
    case Finite(x) => b.Infinite? || x < b.value
  }

  /** `a + w`: the sentinel absorbs the addition, as `double.MaxValue + w` does for the weights here. */
  function Plus(a: Distance, w: real): Distance {
    match a
    case Infinite => Infinite
    case Finite(x) => Finite(x + w)
  }

  /**
   * `d` is the length of a shortest walk from `s` to `x`: some walk has that length and
   * none is shorter; the sentinel when no walk leads there.
   */
  ghost predicate IsShortestDistance(g: Graph, s: int, x: int, d: Distance) {
    match d
    case Infinite => forall walk :: !IsWalk(g, s, x, walk)
    case Finite(r) =>
      && (exists walk :: IsWalk(g, s, x, walk) && WalkWeight(g, walk) == r)
      && (forall walk :: IsWalk(g, s, x, walk) ==> r <= WalkWeight(g, walk))
  }

  /** `d` holds the shortest distance from `s` to every vertex. */
  ghost predicate IsShortestDistances(g: Graph, s: int, d: seq<Distance>) {
    |d| == |g| && forall x :: 0 <= x < |g| ==> IsShortestDistance(g, s, x, d[x])
  }

  /** Some sequence holds the shortest distances from `s`. */
  ghost predicate HasShortestDistances(g: Graph, s: int) {
    exists d :: IsShortestDistances(g, s, d)
  }

  /** There is at most one shortest distance. */
  lemma ShortestDistanceUnique(g: Graph, s: int, x: int, d1: Distance, d2: Distance)
    requires IsShortestDistance(g, s, x, d1) && IsShortestDistance(g, s, x, d2)
    ensures d1 == d2
  {
    if d1.Finite? && d2.Finite? {
      var w1 :| IsWalk(g, s, x, w1) && WalkWeight(g, w1) == d1.value;
      var w2 :| IsWalk(g, s, x, w2) && WalkWeight(g, w2) == d2.value;
      assert d1.value <= WalkWeight(g, w2) && d2.value <= WalkWeight(g, w1);
    }
  }

  /** So the shortest distances from a vertex are one sequence. */
  lemma ShortestDistancesUnique(g: Graph, s: int, d1: seq<Distance>, d2: seq<Distance>)
    requires IsShortestDistances(g, s, d1) && IsShortestDistances(g, s, d2)
    ensures d1 == d2
  {
    forall x | 0 <= x < |g|
      ensures d1[x] == d2[x]
    {
      ShortestDistanceUnique(g, s, x, d1[x], d2[x]);
    }
  }

  /** The shortest distances from `s`, when they exist. */
  ghost function ShortestDistancesFrom(g: Graph, s: int): seq<Distance>
    requires HasShortestDistances(g, s)
  {
    var d :| IsShortestDistances(g, s, d); d
  }

  /** Any sequence of shortest distances is the one `ShortestDistancesFrom` names. */
  lemma ShortestDistancesFromIs(g: Graph, s: int, d: seq<Distance>)
    requires IsShortestDistances(g, s, d)
    ensures HasShortestDistances(g, s) && ShortestDistancesFrom(g, s) == d
  {
    ShortestDistancesUnique(g, s, d, ShortestDistancesFrom(g, s));
  }

  /** Dropping the last hop of a walk leaves a walk to the vertex that hop leaves. */
  lemma WalkPrefix(g: Graph, s: int, x: int, walk: seq<Hop>)
    requires IsWalk(g, s, x, walk) && |walk| > 0
    ensures IsWalk(g, s, walk[|walk| - 1].from, walk[..|walk| - 1])
    ensures x == HopTarget(g, walk[|walk| - 1])
    ensures WalkWeight(g, walk) == WalkWeight(g, walk[..|walk| - 1]) + HopWeight(g, walk[|walk| - 1])
  {
  }

  /** A walk to `x` followed by an edge of `x` is a walk to that edge's target. */
  lemma WalkExtend(g: Graph, s: int, x: int, walk: seq<Hop>, h: Hop)
    requires IsWalk(g, s, x, walk) && HopValid(g, h) && h.from == x
    ensures IsWalk(g, s, HopTarget(g, h), walk + [h])
    ensures WalkWeight(g, walk + [h]) == WalkWeight(g, walk) + HopWeight(g, h)
  {
    assert (walk + [h])[..|walk|] == walk;
  }

  /** With non-negative weights no walk has negative length. */
  lemma {:induction false} WalkWeightNonNegative(g: Graph, walk: seq<Hop>)
    requires NonNegativeWeights(g) && forall k :: 0 <= k < |walk| ==> HopValid(g, walk[k])
    ensures WalkWeight(g, walk) >= 0.0
  {
    if |walk| > 0 {
      var h := walk[|walk| - 1];
      assert HopValid(g, h);
      WalkWeightNonNegative(g, walk[..|walk| - 1]);
    }
  }
  /** Some walk leads from `s` to `x`. */
  ghost predicate HasWalk(g: Graph, s: int, x: int) {
    exists walk :: IsWalk(g, s, x, walk)
  }

  /** The vertices a walk passes through form a path. */
  lemma {:induction false} WalkGivesPath(g: Graph, s: int, x: int, walk: seq<Hop>)
    requires IsWalk(g, s, x, walk)
    ensures Reachable(g, s, x)
    decreases |walk|
  {
    if |walk| == 0 {
      assert IsPath(g, [s]);
    } else {
      var h := walk[|walk| - 1];
      WalkPrefix(g, s, x, walk);
      WalkGivesPath(g, s, h.from, walk[..|walk| - 1]);
      var p :| IsPath(g, p) && p[0] == s && p[|p| - 1] == h.from;
      assert Edge(g, h.from, x);
      var q := p + [x];
      assert IsPath(g, q) && q[0] == s && q[|q| - 1] == x;
    }
  }

  /** Choosing, for each step of a path, a pair that makes the edge gives a walk. */
  lemma {:induction false} PathGivesWalk(g: Graph, p: seq<int>)
    requires IsPath(g, p)
    ensures HasWalk(g, p[0], p[|p| - 1])
    decreases |p|
  {
    if |p| == 1 {
      assert IsWalk(g, p[0], p[0], []);
    } else {
      var n := |p| - 1;
      var p' := p[..n];
      assert IsPath(g, p');
      PathGivesWalk(g, p');
      var walk :| IsWalk(g, p[0], p[n - 1], walk);
      assert Edge(g, p[n - 1], p[n]);
      var j :| 0 <= j < |g[p[n - 1]]| && g[p[n - 1]][j].First == p[n] + 1;
      WalkExtend(g, p[0], p[n - 1], walk, Hop(p[n - 1], j));
    }
  }

  /** A walk leads from `s` to `x` exactly when a path does. */
  lemma ReachableIffWalk(g: Graph, s: int, x: int)
    requires 0 <= s < |g|
    ensures Reachable(g, s, x) <==> HasWalk(g, s, x)
  {
    if Reachable(g, s, x) {
      var p :| IsPath(g, p) && p[0] == s && p[|p| - 1] == x;
      PathGivesWalk(g, p);
    }
    if HasWalk(g, s, x) {
      var walk :| IsWalk(g, s, x, walk);
      WalkGivesPath(g, s, x, walk);
    }
  }

  /** The shortest distance is the sentinel exactly for the vertices `s` does not reach. */
  lemma DistanceFiniteIffReachable(g: Graph, s: int, x: int, dx: Distance)
    requires 0 <= s < |g| && IsShortestDistance(g, s, x, dx)
    ensures dx.Finite? <==> Reachable(g, s, x)
  {
    ReachableIffWalk(g, s, x);
  }
}
