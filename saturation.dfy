/**
 * `FindSaturationTime` of `MetricOrientedGraph`: the time at which a flow started at one
 * vertex, spreading along every edge at unit speed, has filled every edge it reaches. An
 * edge of weight `w` leaving a vertex first reached at time `d` is full at `d + w`; the
 * result is the latest such time, less `epsilon`, and never below zero.
 */
module Saturation {
  import opened Pairs
  import opened Graphs
  import opened Walks
  import opened Simplify
  import opened ShortestPaths

  /** `d + w - epsilon` for an edge of weight `w` leaving a vertex at distance `d`. */
  function Candidate(d: Distance, w: real, epsilon: real): Distance {
    Plus(Plus(d, w), -epsilon)
  }

  /** The later of two times: `b` replaces `a` only when `a < b`, as in the source's `if`. */
  function Later(a: Distance, b: Distance): Distance {
    if Shorter(a, b) then b else a
  }

  /** Folds the candidates of the pairs of `list`, leaving a vertex at distance `du`, into `acc`. */
  function ListLatest(list: seq<Pair>, du: Distance, epsilon: real, acc: Distance): Distance
  {
    if |list| == 0 then acc
    else Later(ListLatest(list[..|list| - 1], du, epsilon, acc), Candidate(du, list[|list| - 1].Second, epsilon))
  }

  /** Folds the candidates of the lists of the first `n` vertices into zero, vertex by vertex. */
  function GraphLatest(g: Graph, d: seq<Distance>, epsilon: real, n: int): Distance
    requires |d| == |g| && 0 <= n <= |g|
  {
    if n == 0 then Finite(0.0)
    else ListLatest(g[n - 1], d[n - 1], epsilon, GraphLatest(g, d, epsilon, n - 1))
  }

  /** The saturation time of `g` for the distances `d`: the latest candidate, clamped at zero. */
  function SaturationTime(g: Graph, d: seq<Distance>, epsilon: real): (r: Distance)
    requires |d| == |g|
    ensures !Shorter(r, Finite(0.0)) && !Shorter(r, GraphLatest(g, d, epsilon, |g|))
  {
    var t := GraphLatest(g, d, epsilon, |g|);
    if Shorter(t, Finite(0.0)) then Finite(0.0) else t
  }

  /** Every candidate of an edge of the first `n` lists, and zero. */
  ghost predicate CandidateOf(g: Graph, d: seq<Distance>, epsilon: real, n: int, t: Distance)
    requires |d| == |g| && 0 <= n <= |g|
  {
    t == Finite(0.0) ||
    exists u, j :: 0 <= u < n && 0 <= j < |g[u]| && t == Candidate(d[u], g[u][j].Second, epsilon)
  }

  /** "Not earlier than" is transitive. */
  lemma NotShorterTrans(a: Distance, b: Distance, c: Distance)
    requires !Shorter(a, b) && !Shorter(b, c)
    ensures !Shorter(a, c)
  {
  }

  /**
   * The fold over a list is no earlier than its start and than each of the list's candidates,
   * and it is its start or one of them.
   */
  lemma {:induction false} ListLatestBounds(list: seq<Pair>, du: Distance, epsilon: real, acc: Distance)
    ensures !Shorter(ListLatest(list, du, epsilon, acc), acc)
    ensures forall j :: 0 <= j < |list| ==> !Shorter(ListLatest(list, du, epsilon, acc), Candidate(du, list[j].Second, epsilon))
    ensures ListLatest(list, du, epsilon, acc) == acc ||
            exists j :: 0 <= j < |list| && ListLatest(list, du, epsilon, acc) == Candidate(du, list[j].Second, epsilon)
  {
    if |list| > 0 {
      var n := |list| - 1;
      var prev := ListLatest(list[..n], du, epsilon, acc);
      var r := ListLatest(list, du, epsilon, acc);
      var c := Candidate(du, list[n].Second, epsilon);
      ListLatestBounds(list[..n], du, epsilon, acc);
      assert !Shorter(r, prev) && !Shorter(r, c);
      NotShorterTrans(r, prev, acc);
      forall j | 0 <= j < |list|
        ensures !Shorter(r, Candidate(du, list[j].Second, epsilon))
      {
        if j < n {
          assert list[..n][j] == list[j];
          NotShorterTrans(r, prev, Candidate(du, list[j].Second, epsilon));
        }
      }
      if r != c && prev != acc {
        var j :| 0 <= j < n && prev == Candidate(du, list[..n][j].Second, epsilon);
        assert list[..n][j] == list[j];
      }
    }
  }

  /** The fold over the first `n` lists is no earlier than zero and each of their candidates, and is one of them. */
  lemma {:induction false} GraphLatestBounds(g: Graph, d: seq<Distance>, epsilon: real, n: int)
    requires |d| == |g| && 0 <= n <= |g|
    ensures !Shorter(GraphLatest(g, d, epsilon, n), Finite(0.0))
    ensures forall u, j :: 0 <= u < n && 0 <= j < |g[u]| ==>
              !Shorter(GraphLatest(g, d, epsilon, n), Candidate(d[u], g[u][j].Second, epsilon))
    ensures CandidateOf(g, d, epsilon, n, GraphLatest(g, d, epsilon, n))
  {
    if n > 0 {
      var prev := GraphLatest(g, d, epsilon, n - 1);
      var r := GraphLatest(g, d, epsilon, n);
      GraphLatestBounds(g, d, epsilon, n - 1);
      ListLatestBounds(g[n - 1], d[n - 1], epsilon, prev);
      NotShorterTrans(r, prev, Finite(0.0));
      forall u, j | 0 <= u < n && 0 <= j < |g[u]|
        ensures !Shorter(r, Candidate(d[u], g[u][j].Second, epsilon))
      {
        if u < n - 1 {
          NotShorterTrans(r, prev, Candidate(d[u], g[u][j].Second, epsilon));
        }
      }
      if r != prev {
        var j :| 0 <= j < |g[n - 1]| && r == Candidate(d[n - 1], g[n - 1][j].Second, epsilon);
      } else if prev != Finite(0.0) {
        var u, j :| 0 <= u < n - 1 && 0 <= j < |g[u]| && prev == Candidate(d[u], g[u][j].Second, epsilon);
      }
    }
  }

  /**
   * The saturation time is the maximum of zero and the candidates of all edges: no earlier
   * than any of them, and equal to one of them.
   */
  lemma SaturationTimeIsMaximum(g: Graph, d: seq<Distance>, epsilon: real)
    requires |d| == |g|
    ensures !Shorter(SaturationTime(g, d, epsilon), Finite(0.0))
    ensures forall u, j :: 0 <= u < |g| && 0 <= j < |g[u]| ==>
              !Shorter(SaturationTime(g, d, epsilon), Candidate(d[u], g[u][j].Second, epsilon))
    ensures CandidateOf(g, d, epsilon, |g|, SaturationTime(g, d, epsilon))
  {
    GraphLatestBounds(g, d, epsilon, |g|);
  }

  /** The distances Dijkstra finds in the simplified graph are the shortest distances of the graph. */
  lemma SimplifiedShortest(g: Graph, s: int, d: seq<Distance>)
    requires TargetsInRange(g) && NonNegativeWeights(g) && SortedLists(g)
    requires IsShortestDistances(Simplified(g), s, d)
    ensures |d| == |g| && HasShortestDistances(g, s) && ShortestDistancesFrom(g, s) == d
  {
    SimplifiedDistances(g, s, d);
    ShortestDistancesFromIs(g, s, d);
  }

  /** The two loops of `FindSaturationTime`: the latest candidate over every edge, starting from zero. */
  method LatestCandidate(graph: array<seq<Pair>>, shortestWays: array<Distance>, epsilon: real)
    returns (saturationTime: Distance)
    requires shortestWays.Length == graph.Length
    ensures saturationTime == GraphLatest(graph[..], shortestWays[..], epsilon, graph.Length)
  {
    ghost var g := graph[..];
    ghost var d := shortestWays[..];
    saturationTime := Finite(0.0);
    var i := 0;
    while i < graph.Length
      invariant 0 <= i <= graph.Length
      invariant saturationTime == GraphLatest(g, d, epsilon, i)
    {
      var j := 0;
      while j < |graph[i]|
        invariant 0 <= j <= |graph[i]|
        invariant saturationTime == ListLatest(graph[i][..j], d[i], epsilon, GraphLatest(g, d, epsilon, i))
      {
        var candidate := Candidate(shortestWays[i], graph[i][j].Second, epsilon);
        if Shorter(saturationTime, candidate) {
          saturationTime := candidate;
        }
        assert graph[i][..j + 1][..j] == graph[i][..j];
        j := j + 1;
      }
      assert graph[i][..j] == graph[i];
      i := i + 1;
    }
  }

  /**
   * `FindSaturationTime(graph, startVertex, epsilon)`: shortest distances from `startVertex`
   * in the simplified graph, which are those of the graph, then the latest candidate over
   * the edges of the graph itself, clamped at zero.
   */
  method FindSaturationTime(graph: array<seq<Pair>>, startVertex: int, epsilon: real) returns (saturationTime: Distance)
    requires 1 <= startVertex <= graph.Length
    requires TargetsInRange(graph[..]) && NonNegativeWeights(graph[..]) && SortedLists(graph[..])
    ensures HasShortestDistances(graph[..], startVertex - 1)
    ensures saturationTime == SaturationTime(graph[..], ShortestDistancesFrom(graph[..], startVertex - 1), epsilon)
  {
    ghost var g := graph[..];
    var simple := SimplifyGraph(graph);
    assert simple[..] == Simplified(g);
    SimplifiedWellFormed(g);
    var shortestWays := Dijkstra(simple, startVertex);
    SimplifiedShortest(g, startVertex - 1, shortestWays[..]);
    saturationTime := LatestCandidate(graph, shortestWays, epsilon);
    if Shorter(saturationTime, Finite(0.0)) {
      saturationTime := Finite(0.0);
    }
  }
}
