/**
 * `Dijkstra` of `MetricOrientedGraph`, with the relaxation step written as its authors
 * intended (the code as written is modelled in `AsWritten`). Distances are `Distance`
 * values: a length, or the sentinel `double.MaxValue` as `Infinite`.
 */
module ShortestPaths {
  import opened Pairs
  import opened Graphs
  import opened Walks
  import Traversal

  /** `dx` is finite and no walk from `s` to `x` is shorter. */
  ghost predicate Settled(g: Graph, s: int, x: int, dx: Distance) {
    dx.Finite? && forall walk :: IsWalk(g, s, x, walk) ==> dx.value <= WalkWeight(g, walk)
  }

  /** A finite `dx` is the length of some walk from `s` to `x`. */
  ghost predicate Achieved(g: Graph, s: int, x: int, dx: Distance) {
    dx.Finite? ==> exists walk :: IsWalk(g, s, x, walk) && WalkWeight(g, walk) == dx.value
  }

  /** Edge `k` of vertex `u` cannot shorten the distance of its target. */
  ghost predicate Relaxed(g: Graph, d: seq<Distance>, u: int, k: int) {
    && |d| == |g| && 0 <= u < |g| && 0 <= k < |g[u]| && 1 <= g[u][k].First <= |g|
    && !Shorter(Plus(d[u], g[u][k].Second), d[g[u][k].First - 1])
  }

  /**
   * What holds of the distances throughout: the source is at 0, every finite entry is the
   * length of a walk, and every visited entry is a shortest distance.
   */
  ghost predicate Progress(g: Graph, s: int, visited: seq<bool>, d: seq<Distance>) {
    && |visited| == |g| && |d| == |g| && 0 <= s < |g| && d[s] == Finite(0.0)
    && (forall x {:trigger Achieved(g, s, x, d[x])} :: 0 <= x < |g| ==> Achieved(g, s, x, d[x]))
    && (forall x {:trigger Settled(g, s, x, d[x])} :: 0 <= x < |g| && visited[x] ==> Settled(g, s, x, d[x]))
  }

  /** Every edge of every visited vertex other than `except` has been relaxed. */
  ghost predicate Relaxing(g: Graph, visited: seq<bool>, d: seq<Distance>, except: int)
    requires |visited| == |g|
  {
    forall u, k {:trigger Relaxed(g, d, u, k)} ::
      0 <= u < |g| && visited[u] && u != except && 0 <= k < |g[u]| ==> Relaxed(g, d, u, k)
  }

  /** The invariant of the outer loop of `Dijkstra` after `i` vertices were visited. */
  ghost predicate DijkstraAfter(g: Graph, s: int, visited: seq<bool>, d: seq<Distance>, i: int) {
    && Progress(g, s, visited, d) && Relaxing(g, visited, d, -1)
    && 0 <= i <= |g| && Traversal.CountUnvisited(visited) == |g| - i
  }

  /** The invariant of the relaxation loop over the edges of the visited vertex `v`. */
  ghost predicate RelaxingFrom(g: Graph, s: int, visited: seq<bool>, d: seq<Distance>, v: int, j: int) {
    && Progress(g, s, visited, d) && 0 <= v < |g| && visited[v] && Relaxing(g, visited, d, v)
    && 0 <= j <= |g[v]| && forall k {:trigger Relaxed(g, d, v, k)} :: 0 <= k < j ==> Relaxed(g, d, v, k)
  }

  /**
   * `r` is `d` after relaxing the edges `list[..j]` of a vertex at distance `dv`: an entry
   * that no edge targets keeps its value, and every entry is the least of its old value and
   * the candidates `dv + w` of the edges to it (no greater than any of them, and one of them).
   */
  ghost predicate RelaxedBy(d: seq<Distance>, r: seq<Distance>, dv: Distance, list: seq<Pair>, j: int) {
    && |r| == |d| && 0 <= j <= |list|
    && (forall t :: 0 <= t < |d| && (forall k :: 0 <= k < j ==> list[k].First != t + 1) ==> r[t] == d[t])
    && (forall t :: 0 <= t < |d| ==> !Shorter(d[t], r[t]))
    && (forall k :: 0 <= k < j && 1 <= list[k].First <= |r| ==>
          !Shorter(Plus(dv, list[k].Second), r[list[k].First - 1]))
    && (forall t :: 0 <= t < |d| ==>
          r[t] == d[t] || exists k :: 0 <= k < j && list[k].First == t + 1 && r[t] == Plus(dv, list[k].Second))
  }

  /** The entry of the target of edge `j` drops to the candidate. */
  lemma RelaxedByDrop(d: seq<Distance>, r: seq<Distance>, dv: Distance, list: seq<Pair>, j: int)
    requires RelaxedBy(d, r, dv, list, j) && j < |list| && 1 <= list[j].First <= |r|
    requires Shorter(Plus(dv, list[j].Second), r[list[j].First - 1])
    ensures RelaxedBy(d, r[list[j].First - 1 := Plus(dv, list[j].Second)], dv, list, j + 1)
  {
    RelaxedByDropBounds(d, r, dv, list, j);
    RelaxedByDropAttained(d, r, dv, list, j);
  }

  /** After the drop, untargeted entries stay, no entry rises and no candidate undercuts. */
  lemma RelaxedByDropBounds(d: seq<Distance>, r: seq<Distance>, dv: Distance, list: seq<Pair>, j: int)
    requires RelaxedBy(d, r, dv, list, j) && j < |list| && 1 <= list[j].First <= |r|
    requires Shorter(Plus(dv, list[j].Second), r[list[j].First - 1])
    ensures var r' := r[list[j].First - 1 := Plus(dv, list[j].Second)];
            && (forall t :: 0 <= t < |d| && (forall k :: 0 <= k < j + 1 ==> list[k].First != t + 1) ==> r'[t] == d[t])
            && (forall t :: 0 <= t < |d| ==> !Shorter(d[t], r'[t]))
            && (forall k :: 0 <= k < j + 1 && 1 <= list[k].First <= |r'| ==>
                  !Shorter(Plus(dv, list[k].Second), r'[list[k].First - 1]))
  {
    var r' := r[list[j].First - 1 := Plus(dv, list[j].Second)];
    forall t | 0 <= t < |d| && (forall k :: 0 <= k < j + 1 ==> list[k].First != t + 1)
      ensures r'[t] == d[t]
    {
      assert list[j].First != t + 1;
    }
  }

  /** After the drop, every entry is its old value or one of its candidates. */
  lemma RelaxedByDropAttained(d: seq<Distance>, r: seq<Distance>, dv: Distance, list: seq<Pair>, j: int)
    requires RelaxedBy(d, r, dv, list, j) && j < |list| && 1 <= list[j].First <= |r|
    ensures var r' := r[list[j].First - 1 := Plus(dv, list[j].Second)];
            forall t :: 0 <= t < |d| ==>
              r'[t] == d[t] || exists k :: 0 <= k < j + 1 && list[k].First == t + 1 && r'[t] == Plus(dv, list[k].Second)
  {
    var t0 := list[j].First - 1;
    var r' := r[t0 := Plus(dv, list[j].Second)];
    forall t | 0 <= t < |d|
      ensures r'[t] == d[t] || exists k :: 0 <= k < j + 1 && list[k].First == t + 1 && r'[t] == Plus(dv, list[k].Second)
    {
      if t == t0 {
        assert list[j].First == t + 1 && r'[t] == Plus(dv, list[j].Second);
      } else if r[t] != d[t] {
        var k :| 0 <= k < j && list[k].First == t + 1 && r[t] == Plus(dv, list[k].Second);
      }
    }
  }

  /** The entry of the target of edge `j` is already no greater than the candidate. */
  lemma RelaxedByKeep(d: seq<Distance>, r: seq<Distance>, dv: Distance, list: seq<Pair>, j: int)
    requires RelaxedBy(d, r, dv, list, j) && j < |list| && 1 <= list[j].First <= |r|
    requires !Shorter(Plus(dv, list[j].Second), r[list[j].First - 1])
    ensures RelaxedBy(d, r, dv, list, j + 1)
  {
    forall x | 0 <= x < |d|
      ensures r[x] == d[x] || exists k :: 0 <= k < j + 1 && list[k].First == x + 1 && r[x] == Plus(dv, list[k].Second)
    {
      if r[x] != d[x] {
        var k :| 0 <= k < j && list[k].First == x + 1 && r[x] == Plus(dv, list[k].Second);
      }
    }
  }

  /** The invariant of `RelaxEdges` after `j` edges of `v`, from the table `d0` with `d0[v] == dv`. */
  ghost predicate RelaxLoop(g: Graph, s: int, visited: seq<bool>, d0: seq<Distance>, dv: Distance, v: int,
                            d: seq<Distance>, j: int) {
    && RelaxingFrom(g, s, visited, d, v, j) && d[v] == dv
    && RelaxedBy(d0, d, dv, g[v], j)
  }

  /** One turn of the loop of `RelaxEdges` keeps its invariant, whether the entry drops or not. */
  lemma RelaxLoopStep(g: Graph, s: int, visited: seq<bool>, d0: seq<Distance>, dv: Distance, v: int,
                      d: seq<Distance>, j: int)
    requires RelaxLoop(g, s, visited, d0, dv, v, d, j) && j < |g[v]|
    requires TargetsInRange(g) && NonNegativeWeights(g)
    ensures var t := g[v][j].First - 1;
            var nd := Plus(dv, g[v][j].Second);
            && 0 <= t < |d|
            && (Shorter(nd, d[t]) ==> RelaxLoop(g, s, visited, d0, dv, v, d[t := nd], j + 1))
            && (!Shorter(nd, d[t]) ==> RelaxLoop(g, s, visited, d0, dv, v, d, j + 1))
  {
    var t := g[v][j].First - 1;
    var nd := Plus(dv, g[v][j].Second);
    RelaxStep(g, s, visited, d, v, j);
    if Shorter(nd, d[t]) {
      RelaxedByDrop(d0, d, dv, g[v], j);
      assert g[v][j].Second >= 0.0 && t != v;
    } else {
      RelaxedByKeep(d0, d, dv, g[v], j);
    }
  }

  /** Nothing visited, every entry at the sentinel except the source, at 0. */
  lemma DijkstraStart(g: Graph, s: int, visited: seq<bool>, d: seq<Distance>)
    requires 0 <= s < |g| && |visited| == |g| && |d| == |g|
    requires forall x :: 0 <= x < |g| ==> !visited[x]
    requires d[s] == Finite(0.0) && forall x :: 0 <= x < |g| && x != s ==> d[x] == Infinite
    ensures DijkstraAfter(g, s, visited, d, 0)
  {
    Traversal.CountUnvisitedNone(visited);
    assert IsWalk(g, s, s, []) && WalkWeight(g, []) == 0.0;
    forall x | 0 <= x < |g|
      ensures Achieved(g, s, x, d[x])
    {
    }
  }

  /**
   * With every unvisited entry at least `m`, every walk from `s` to an unvisited vertex is
   * at least `m` long: it leaves the visited vertices over a relaxed edge.
   */
  lemma {:induction false} UnvisitedWalkBound(g: Graph, s: int, visited: seq<bool>, d: seq<Distance>, m: real,
                                              x: int, walk: seq<Hop>)
    requires Progress(g, s, visited, d) && Relaxing(g, visited, d, -1) && NonNegativeWeights(g)
    requires forall y :: 0 <= y < |g| && !visited[y] ==> !Shorter(d[y], Finite(m))
    requires IsWalk(g, s, x, walk) && !visited[x]
    ensures m <= WalkWeight(g, walk)
    decreases |walk|
  {
    if |walk| == 0 {
      assert !Shorter(d[s], Finite(m));
    } else {
      var n := |walk| - 1;
      var h := walk[n];
      var u := h.from;
      WalkPrefix(g, s, x, walk);
      if visited[u] {
        assert Settled(g, s, u, d[u]);
        assert Relaxed(g, d, u, h.index);
        assert !Shorter(d[x], Finite(m));
      } else {
        UnvisitedWalkBound(g, s, visited, d, m, u, walk[..n]);
        assert g[u][h.index].Second >= 0.0;
      }
    }
  }

  /** With every unvisited entry at the sentinel, every walk from `s` ends at a visited vertex. */
  lemma {:induction false} VisitedCloseWalks(g: Graph, s: int, visited: seq<bool>, d: seq<Distance>,
                                             x: int, walk: seq<Hop>)
    requires Progress(g, s, visited, d) && Relaxing(g, visited, d, -1)
    requires forall y :: 0 <= y < |g| && !visited[y] ==> d[y] == Infinite
    requires IsWalk(g, s, x, walk)
    ensures visited[x]
    decreases |walk|
  {
    if |walk| == 0 {
      assert d[s] != Infinite;
    } else {
      var n := |walk| - 1;
      var h := walk[n];
      WalkPrefix(g, s, x, walk);
      VisitedCloseWalks(g, s, visited, d, h.from, walk[..n]);
      assert Settled(g, s, h.from, d[h.from]);
      assert Relaxed(g, d, h.from, h.index);
      assert d[x] != Infinite;
    }
  }

  /**
   * Visiting the unvisited vertex `v` of least finite distance: that distance is a shortest
   * one, since every walk to `v` leaves the visited vertices over a relaxed edge.
   */
  lemma SettleStep(g: Graph, s: int, visited: seq<bool>, d: seq<Distance>, i: int, v: int)
    requires DijkstraAfter(g, s, visited, d, i) && NonNegativeWeights(g)
    requires 0 <= v < |g| && !visited[v] && d[v].Finite?
    requires forall k :: 0 <= k < |g| && !visited[k] ==> !Shorter(d[k], d[v])
    ensures RelaxingFrom(g, s, visited[v := true], d, v, 0)
    ensures Traversal.CountUnvisited(visited[v := true]) == |g| - (i + 1)
  {
    var visited' := visited[v := true];
    Traversal.CountUnvisitedMark(visited, v);
    forall walk | IsWalk(g, s, v, walk)
      ensures d[v].value <= WalkWeight(g, walk)
    {
      UnvisitedWalkBound(g, s, visited, d, d[v].value, v, walk);
    }
    assert Settled(g, s, v, d[v]);
    forall x | 0 <= x < |g| && visited'[x]
      ensures Settled(g, s, x, d[x])
    {
      if x != v {
        assert visited[x];
      }
    }
    forall u, k | 0 <= u < |g| && visited'[u] && u != v && 0 <= k < |g[u]|
      ensures Relaxed(g, d, u, k)
    {
      assert visited[u];
    }
  }

  /**
   * An improving relaxation of edge `j` of `v` to the unvisited `t`, with `nd` the length
   * of a walk to `t`, keeps the invariant of the relaxation loop.
   */
  lemma RelaxImproves(g: Graph, s: int, visited: seq<bool>, d: seq<Distance>, v: int, j: int, nd: Distance)
    requires RelaxingFrom(g, s, visited, d, v, j) && j < |g[v]| && TargetsInRange(g)
    requires nd == Plus(d[v], g[v][j].Second) && Shorter(nd, d[g[v][j].First - 1])
    requires Achieved(g, s, g[v][j].First - 1, nd)
    requires !visited[g[v][j].First - 1] && g[v][j].First - 1 != s
    ensures RelaxingFrom(g, s, visited, d[g[v][j].First - 1 := nd], v, j + 1)
  {
    var t := g[v][j].First - 1;
    var d' := d[t := nd];
    forall x | 0 <= x < |g|
      ensures Achieved(g, s, x, d'[x])
    {
      if x != t {
        assert Achieved(g, s, x, d[x]);
      }
    }
    forall x | 0 <= x < |g| && visited[x]
      ensures Settled(g, s, x, d'[x])
    {
      assert Settled(g, s, x, d[x]);
    }
    forall u, k | 0 <= u < |g| && visited[u] && 0 <= k < |g[u]| && (u != v || k <= j)
      ensures Relaxed(g, d', u, k)
    {
      if u != v || k < j {
        assert Relaxed(g, d, u, k);
      }
    }
  }

  /** Relaxing edge `j` of `v`: the entry of its target drops to `d[v] + w` when that is less. */
  lemma RelaxStep(g: Graph, s: int, visited: seq<bool>, d: seq<Distance>, v: int, j: int)
    requires RelaxingFrom(g, s, visited, d, v, j) && j < |g[v]|
    requires TargetsInRange(g) && NonNegativeWeights(g)
    ensures var t := g[v][j].First - 1;
            var nd := Plus(d[v], g[v][j].Second);
            && 0 <= t < |g|
            && (Shorter(nd, d[t]) ==> RelaxingFrom(g, s, visited, d[t := nd], v, j + 1))
            && (!Shorter(nd, d[t]) ==> RelaxingFrom(g, s, visited, d, v, j + 1))
  {
    var t := g[v][j].First - 1;
    var nd := Plus(d[v], g[v][j].Second);
    if Shorter(nd, d[t]) {
      assert Settled(g, s, v, d[v]) && Achieved(g, s, v, d[v]);
      var wv :| IsWalk(g, s, v, wv) && WalkWeight(g, wv) == d[v].value;
      var h := Hop(v, j);
      WalkExtend(g, s, v, wv, h);
      WalkWeightNonNegative(g, wv);
      assert nd == Finite(WalkWeight(g, wv + [h])) && nd.value >= 0.0;
      assert visited[t] ==> Settled(g, s, t, d[t]);
      RelaxImproves(g, s, visited, d, v, j, nd);
    }
  }

  /** All edges of `v` relaxed: back to the outer invariant with one more vertex visited. */
  lemma RelaxDone(g: Graph, s: int, visited: seq<bool>, d: seq<Distance>, v: int, i: int)
    requires 0 <= v < |g| && RelaxingFrom(g, s, visited, d, v, |g[v]|)
    requires 0 <= i < |g| && Traversal.CountUnvisited(visited) == |g| - (i + 1)
    ensures DijkstraAfter(g, s, visited, d, i + 1)
  {
    forall u, k | 0 <= u < |g| && visited[u] && 0 <= k < |g[u]|
      ensures Relaxed(g, d, u, k)
    {
    }
  }

  /**
   * The loop ends with every vertex visited, or with every unvisited entry at the
   * sentinel: then every entry is the shortest distance from `s`.
   */
  lemma DijkstraDone(g: Graph, s: int, visited: seq<bool>, d: seq<Distance>, i: int)
    requires DijkstraAfter(g, s, visited, d, i) && NonNegativeWeights(g)
    requires i == |g| || forall y :: 0 <= y < |g| && !visited[y] ==> d[y] == Infinite
    ensures IsShortestDistances(g, s, d)
  {
    Traversal.CountUnvisitedZero(visited);
    assert forall y :: 0 <= y < |g| && !visited[y] ==> d[y] == Infinite;
    forall x | 0 <= x < |g|
      ensures IsShortestDistance(g, s, x, d[x])
    {
      assert Achieved(g, s, x, d[x]);
      if visited[x] {
        assert Settled(g, s, x, d[x]);
      } else {
        forall walk
          ensures !IsWalk(g, s, x, walk)
        {
          if IsWalk(g, s, x, walk) {
            VisitedCloseWalks(g, s, visited, d, x, walk);
          }
        }
      }
    }
  }

  /**
   * The selection loop of `Dijkstra`, from index `j` on with `v` held: the vertex held, or an unvisited vertex from `j`
   * on; -1 exactly when none is held and every vertex from `j` on is visited.
   */
  function SelectFrom(visited: seq<bool>, d: seq<Distance>, j: nat, v: int): (r: int)
    requires |visited| == |d| && -1 <= v < |d|
    ensures -1 <= r < |d|
    ensures r == v || (j <= r < |d| && !visited[r])
    ensures r == -1 <==> v == -1 && forall k :: j <= k < |d| ==> visited[k]
    decreases |d| - j
  {
    if j >= |d| then v
    else if !visited[j] && (v == -1 || Shorter(d[j], d[v])) then SelectFrom(visited, d, j + 1, j)
    else SelectFrom(visited, d, j + 1, v)
  }

  /** The vertex picked is no further than the one held and than every unvisited vertex from `j` on. */
  lemma {:induction false} SelectFromLeast(visited: seq<bool>, d: seq<Distance>, j: nat, v: int)
    requires |visited| == |d| && -1 <= v < |d|
    ensures var r := SelectFrom(visited, d, j, v);
            -1 <= r < |d| &&
            (v != -1 ==> r != -1 && !Shorter(d[v], d[r])) &&
            (forall k :: j <= k < |d| && !visited[k] ==> r != -1 && !Shorter(d[k], d[r]))
    decreases |d| - j
  {
    if j < |d| {
      if !visited[j] && (v == -1 || Shorter(d[j], d[v])) {
        SelectFromLeast(visited, d, j + 1, j);
      } else {
        SelectFromLeast(visited, d, j + 1, v);
      }
    }
  }

  /**
   * The selection loop of `Dijkstra`: the first unvisited vertex of least entry, or -1
   * when every vertex is visited.
   */
  method ClosestUnvisited(visited: array<bool>, shortestWays: array<Distance>) returns (v: int)
    requires visited.Length == shortestWays.Length
    ensures v == -1 <==> forall k :: 0 <= k < visited.Length ==> visited[k]
    ensures v != -1 ==> 0 <= v < visited.Length && !visited[v]
    ensures v != -1 ==> forall k :: 0 <= k < visited.Length && !visited[k] ==> !Shorter(shortestWays[k], shortestWays[v])
    ensures v != -1 ==> forall k :: 0 <= k < v && !visited[k] ==> Shorter(shortestWays[v], shortestWays[k])
    ensures v == SelectFrom(visited[..], shortestWays[..], 0, -1)
  {
    v := -1;
    var j := 0;
    while j < visited.Length
      invariant 0 <= j <= visited.Length
      invariant v == -1 ==> forall k :: 0 <= k < j ==> visited[k]
      invariant v != -1 ==> 0 <= v < j && !visited[v]
      invariant v != -1 ==> forall k :: 0 <= k < j && !visited[k] ==> !Shorter(shortestWays[k], shortestWays[v])
      invariant v != -1 ==> forall k :: 0 <= k < v && !visited[k] ==> Shorter(shortestWays[v], shortestWays[k])
      invariant SelectFrom(visited[..], shortestWays[..], j, v) == SelectFrom(visited[..], shortestWays[..], 0, -1)
    {
      if !visited[j] && (v == -1 || Shorter(shortestWays[j], shortestWays[v])) {
        v := j;
      }
      j := j + 1;
    }
  }

  /**
   * The relaxation loop of `Dijkstra`: for each edge `(target, w)` of the visited vertex
   * `v`, the entry of `target` drops to `shortestWays[v] + w` when that is less.
   */
  method RelaxEdges(graph: array<seq<Pair>>, visited: array<bool>, shortestWays: array<Distance>, v: int,
                    ghost g: Graph, ghost s: int)
    requires graph[..] == g && TargetsInRange(g) && NonNegativeWeights(g)
    requires RelaxingFrom(g, s, visited[..], shortestWays[..], v, 0)
    modifies shortestWays
    ensures RelaxingFrom(g, s, visited[..], shortestWays[..], v, |g[v]|)
    ensures RelaxedBy(old(shortestWays[..]), shortestWays[..], old(shortestWays[v]), g[v], |g[v]|)
  {
    var list := graph[v];
    ghost var d0 := shortestWays[..];
    ghost var dv := shortestWays[v];
    var j := 0;
    while j < |list|
      invariant RelaxLoop(g, s, visited[..], d0, dv, v, shortestWays[..], j)
    {
      var target := list[j].First;
      ghost var before := shortestWays[..];
      RelaxLoopStep(g, s, visited[..], d0, dv, v, before, j);
      if Shorter(Plus(shortestWays[v], list[j].Second), shortestWays[target - 1]) {
        shortestWays[target - 1] := Plus(shortestWays[v], list[j].Second);
        assert shortestWays[..] == before[target - 1 := Plus(dv, list[j].Second)];
      }
      j := j + 1;
    }
  }

  /** The loop of `Dijkstra` that sets every entry to the sentinel `double.MaxValue`. */
  method FillUnreached(shortestWays: array<Distance>)
    modifies shortestWays
    ensures forall k :: 0 <= k < shortestWays.Length ==> shortestWays[k] == Infinite
  {
    var i := 0;
    while i < shortestWays.Length
      invariant 0 <= i <= shortestWays.Length
      invariant forall k :: 0 <= k < i ==> shortestWays[k] == Infinite
    {
      shortestWays[i] := Infinite;
      i := i + 1;
    }
  }

  /**
   * `Dijkstra(graph, vertex)`: the O(V^2) algorithm. Each round visits the unvisited vertex
   * of least entry, stops once that entry is the sentinel, and relaxes the edges of the
   * vertex visited. The result holds the shortest distance from `vertex` to every vertex,
   * the sentinel for those no walk reaches.
   */
  method Dijkstra(graph: array<seq<Pair>>, vertex: int) returns (shortestWays: array<Distance>)
    requires 1 <= vertex <= graph.Length
    requires TargetsInRange(graph[..]) && NonNegativeWeights(graph[..])
    ensures fresh(shortestWays)
    ensures IsShortestDistances(graph[..], vertex - 1, shortestWays[..])
    ensures shortestWays[vertex - 1] == Finite(0.0)
  {
    ghost var g := graph[..];
    var visited := new bool[graph.Length];
    Traversal.ClearVisited(visited);
    shortestWays := new Distance[graph.Length];
    FillUnreached(shortestWays);
    shortestWays[vertex - 1] := Finite(0.0);
    DijkstraStart(g, vertex - 1, visited[..], shortestWays[..]);
    var i := 0;
    while i < graph.Length
      invariant graph[..] == g
      invariant DijkstraAfter(g, vertex - 1, visited[..], shortestWays[..], i)
    {
      var v := ClosestUnvisited(visited, shortestWays);
      Traversal.CountUnvisitedZero(visited[..]);
      if shortestWays[v] == Infinite {
        break;
      }
      SettleStep(g, vertex - 1, visited[..], shortestWays[..], i, v);
      ghost var marked := visited[..][v := true];
      visited[v] := true;
      assert visited[..] == marked;
      RelaxEdges(graph, visited, shortestWays, v, g, vertex - 1);
      RelaxDone(g, vertex - 1, visited[..], shortestWays[..], v, i);
      i := i + 1;
    }
    DijkstraDone(g, vertex - 1, visited[..], shortestWays[..], i);
  }
}
