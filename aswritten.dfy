/**
 * `SimplifyGraph`, `Dijkstra` and `FindSaturationTime` of `MetricOrientedGraph` exactly as
 * written, with the exceptions they raise, next to counterexamples that show where they
 * part from what their authors intended. The intended versions are `Simplify.SimplifyGraph`,
 * `ShortestPaths.Dijkstra` and `Saturation.FindSaturationTime`.
 */
module AsWritten {
  import opened Pairs
  import opened Graphs
  import opened Walks
  import opened Simplify
  import opened ShortestPaths
  import opened Saturation

  /** The exceptions these methods can raise. */
  datatype Fault = NullReference | IndexOutOfRange

  datatype Outcome<T> = Success(value: T) | Failure(fault: Fault)

  /** An element of a `List<Pair<int, double>>[]`: a list, or `null` if never allocated. */
  datatype ListRef = NullList | ListRef(items: seq<Pair>)

  // SimplifyGraph

  /**
   * The test of `SimplifyGraph` for pair `j` of the list of the 0-based vertex `i`: the
   * first pair unless its target is `i`; a later pair if its target is not `i` and equals
   * the target before it.
   */
  predicate AddsAsWritten(list: seq<Pair>, i: int, j: int)
    requires 0 <= j < |list|
  {
    if j == 0 then list[0].First != i
    else list[j].First != i && list[j].First == list[j - 1].First
  }

  /** The list `SimplifyGraph` would build for vertex `i` if its lists were allocated. */
  function SimplifiedListAsWritten(list: seq<Pair>, i: int): (r: seq<Pair>)
    ensures |r| <= |list|
  {
    if |list| == 0 then []
    else SimplifiedListAsWritten(list[..|list| - 1], i) + if AddsAsWritten(list, i, |list| - 1) then [list[|list| - 1]] else []
  }

  /**
   * The list as written holds only pairs of the list: it is a sub-multiset of it, and none
   * of its pairs targets the 1-based `i`.
   */
  lemma {:induction false} SimplifiedListAsWrittenFilters(list: seq<Pair>, i: int)
    ensures multiset(SimplifiedListAsWritten(list, i)) <= multiset(list)
    ensures forall x :: x in SimplifiedListAsWritten(list, i) ==> x.First != i
  {
    if |list| > 0 {
      var n := |list| - 1;
      var prev := SimplifiedListAsWritten(list[..n], i);
      SimplifiedListAsWrittenFilters(list[..n], i);
      assert list == list[..n] + [list[n]];
      assert multiset(list) == multiset(list[..n]) + multiset{list[n]};
      if AddsAsWritten(list, i, n) {
        assert SimplifiedListAsWritten(list, i) == prev + [list[n]];
      } else {
        assert SimplifiedListAsWritten(list, i) == prev;
      }
    }
  }

  /** Every pair that passes the test is in the list as written. */
  lemma {:induction false} SimplifiedListAsWrittenKeeps(list: seq<Pair>, i: int)
    ensures forall k :: 0 <= k < |list| && AddsAsWritten(list, i, k) ==> list[k] in SimplifiedListAsWritten(list, i)
  {
    if |list| > 0 {
      var n := |list| - 1;
      var prev := SimplifiedListAsWritten(list[..n], i);
      var r := SimplifiedListAsWritten(list, i);
      SimplifiedListAsWrittenKeeps(list[..n], i);
      assert forall x :: x in prev ==> x in r;
      forall k | 0 <= k < |list| && AddsAsWritten(list, i, k)
        ensures list[k] in r
      {
        if k < n {
          assert list[..n][k] == list[k];
          assert AddsAsWritten(list[..n], i, k);
        }
      }
    }
  }

  /** Whether the loop over the list of vertex `i` calls `newGraph[i].Add` at pair `j` or later. */
  function ReachesAdd(list: seq<Pair>, i: int, j: nat): bool
    decreases |list| - j
  {
    if j >= |list| then false
    else if AddsAsWritten(list, i, j) then true
    else ReachesAdd(list, i, j + 1)
  }

  /**
   * `SimplifyGraph` as written, from vertex `i` on: `newGraph` is a fresh array of `null`
   * lists, so the first `Add` raises `NullReferenceException`; if no pair passes the test
   * the array of `null`s is returned.
   */
  function SimplifyGraphFrom(g: Graph, i: nat): (r: Outcome<seq<ListRef>>)
    ensures r.Failure? <==> exists u :: i <= u < |g| && ReachesAdd(g[u], u, 0)
    ensures r.Failure? ==> r.fault == NullReference
    decreases |g| - i
  {
    if i >= |g| then Success(seq(|g|, _ => NullList))
    else if ReachesAdd(g[i], i, 0) then Failure(NullReference)
    else SimplifyGraphFrom(g, i + 1)
  }

  /** `SimplifyGraph` as written: it fails exactly when some vertex's loop reaches an `Add`. */
  function SimplifyGraphAsWritten(g: Graph): (r: Outcome<seq<ListRef>>)
    ensures r.Failure? <==> exists u :: 0 <= u < |g| && ReachesAdd(g[u], u, 0)
  {
    SimplifyGraphFrom(g, 0)
  }

  /** Whatever the graph, `SimplifyGraph` as written raises `NullReferenceException` or returns only `null` lists. */
  lemma {:induction false} SimplifyGraphAsWrittenNull(g: Graph, i: nat)
    ensures SimplifyGraphFrom(g, i).Success? ==>
              SimplifyGraphFrom(g, i).value == seq(|g|, _ => NullList)
    ensures SimplifyGraphFrom(g, i).Failure? ==> SimplifyGraphFrom(g, i).fault == NullReference
    decreases |g| - i
  {
    if i < |g| && !ReachesAdd(g[i], i, 0) {
      SimplifyGraphAsWrittenNull(g, i + 1);
    }
  }

  /** A single edge `1 -> 2` makes `SimplifyGraph` raise `NullReferenceException`. */
  lemma SimplifyGraphAsWrittenFaults()
    ensures SimplifyGraphAsWritten([[Pair(2, 1.0)], []]) == Failure(NullReference)
  {
    var g := [[Pair(2, 1.0)], []];
    assert AddsAsWritten(g[0], 0, 0);
  }

  /**
   * Even with allocated lists, the test keeps a loop and the heavier copy of an edge: vertex
   * 1 with a loop and two edges to 2 keeps all three, where the simplified list is the
   * lighter edge to 2 alone.
   */
  lemma SimplifiedListAsWrittenKeepsLoopsAndCopies()
    ensures SimplifiedListAsWritten([Pair(1, 4.0), Pair(2, 1.0), Pair(2, 5.0)], 0) ==
              [Pair(1, 4.0), Pair(2, 5.0)]
    ensures SimplifiedList([Pair(1, 4.0), Pair(2, 1.0), Pair(2, 5.0)], 1) == [Pair(2, 1.0)]
  {
    var list := [Pair(1, 4.0), Pair(2, 1.0), Pair(2, 5.0)];
    assert list[..2][..1] == [Pair(1, 4.0)] && list[..2] == [Pair(1, 4.0), Pair(2, 1.0)];
    assert [Pair(1, 4.0)][..0] == [];
    assert SimplifiedListAsWritten([Pair(1, 4.0)], 0) == [Pair(1, 4.0)];
    assert SimplifiedListAsWritten(list[..2], 0) == [Pair(1, 4.0)];
    assert SimplifiedList([Pair(1, 4.0)], 1) == [];
    assert SimplifiedList(list[..2], 1) == [Pair(2, 1.0)];
  }

  // Dijkstra

  /**
   * The relaxing loop over the list of `v` as written: it adds the weight of pair `j` to
   * `shortestWays[j]` rather than `shortestWays[v]`, and indexes `shortestWays` by the
   * 1-based target itself.
   */
  function RelaxAsWritten(list: seq<Pair>, d: seq<Distance>, j: nat): (r: Outcome<seq<Distance>>)
    ensures r.Failure? ==> r.fault == IndexOutOfRange
    ensures r.Success? ==> |r.value| == |d|
    decreases |list| - j
  {
    if j >= |list| then Success(d)
    else if j >= |d| then Failure(IndexOutOfRange)
    else
      var t := list[j].First;
      if t < 0 || t >= |d| then Failure(IndexOutOfRange)
      else
        var candidate := Plus(d[j], list[j].Second);
        RelaxAsWritten(list, if Shorter(candidate, d[t]) then d[t := candidate] else d, j + 1)
  }

  /** As written, the relaxing loop still never raises an entry. */
  lemma {:induction false} RelaxAsWrittenLowers(list: seq<Pair>, d: seq<Distance>, j: nat)
    ensures RelaxAsWritten(list, d, j).Success? ==>
              forall t :: 0 <= t < |d| ==> !Shorter(d[t], RelaxAsWritten(list, d, j).value[t])
    decreases |list| - j
  {
    if j < |list| && j < |d| {
      var t := list[j].First;
      if 0 <= t < |d| {
        var candidate := Plus(d[j], list[j].Second);
        var d' := if Shorter(candidate, d[t]) then d[t := candidate] else d;
        RelaxAsWrittenLowers(list, d', j + 1);
      }
    }
  }

  /** Rounds `i` onward of the outer loop of `Dijkstra` as written. */
  function DijkstraRounds(g: seq<ListRef>, visited: seq<bool>, d: seq<Distance>, i: nat): (r: Outcome<seq<Distance>>)
    requires |visited| == |d| == |g|
    ensures r.Success? ==> |r.value| == |d|
    decreases |g| - i
  {
    if i >= |g| then Success(d)
    else
      var v := SelectFrom(visited, d, 0, -1);
      if v == -1 then Failure(IndexOutOfRange)
      else if d[v] == Infinite then Success(d)
      else if g[v].NullList? then Failure(NullReference)
      else
        match RelaxAsWritten(g[v].items, d, 0)
        case Failure(f) => Failure(f)
        case Success(d') =>
          if |d'| == |d| then DijkstraRounds(g, visited[v := true], d', i + 1)
          else Failure(IndexOutOfRange)
  }

  /** `Dijkstra(graph, vertex)` as written. */
  function DijkstraAsWritten(g: seq<ListRef>, vertex: int): (r: Outcome<seq<Distance>>)
    ensures (vertex < 1 || vertex > |g|) ==> r == Failure(IndexOutOfRange)
    ensures r.Success? ==> |r.value| == |g|
  {
    if vertex < 1 || vertex > |g| then Failure(IndexOutOfRange)
    else DijkstraRounds(g, seq(|g|, _ => false), seq(|g|, _ => Infinite)[vertex - 1 := Finite(0.0)], 0)
  }

  /** The graph as an array of allocated lists. */
  function Allocated(g: Graph): seq<ListRef> {
    seq(|g|, u requires 0 <= u < |g| => ListRef(g[u]))
  }

  /**
   * On the cycle 1 -> 2 -> 3 -> 1, `Dijkstra` as written from vertex 1 indexes
   * `shortestWays[3]` in an array of three and raises `IndexOutOfRangeException`, though the
   * graph is well formed.
   */
  lemma DijkstraAsWrittenOutOfRange()
    ensures var g := [[Pair(2, 1.0)], [Pair(3, 2.0)], [Pair(1, 3.0)]];
            TargetsInRange(g) && NonNegativeWeights(g) && SortedLists(g) &&
            DijkstraAsWritten(Allocated(g), 1) == Failure(IndexOutOfRange)
  {
    var g := [[Pair(2, 1.0)], [Pair(3, 2.0)], [Pair(1, 3.0)]];
    var a := Allocated(g);
    var d0 := [Finite(0.0), Infinite, Infinite];
    assert seq(3, _ => Infinite)[0 := Finite(0.0)] == d0;
    assert SelectFrom([false, false, false], d0, 0, -1) == 0;
    var d1 := [Finite(0.0), Infinite, Finite(1.0)];
    assert RelaxAsWritten(a[0].items, d1, 1) == Success(d1);
    assert d0[2 := Finite(1.0)] == d1;
    assert RelaxAsWritten(a[0].items, d0, 0) == Success(d1);
    assert SelectFrom([true, false, false], d1, 0, -1) == 2;
    var d2 := [Finite(0.0), Finite(3.0), Finite(1.0)];
    assert RelaxAsWritten(a[2].items, d2, 1) == Success(d2);
    assert d1[1 := Finite(3.0)] == d2;
    assert RelaxAsWritten(a[2].items, d1, 0) == Success(d2);
    assert SelectFrom([true, false, true], d2, 0, -1) == 1;
    assert RelaxAsWritten(a[1].items, d2, 0) == Failure(IndexOutOfRange);
    assert DijkstraRounds(a, [true, false, true], d2, 2) == Failure(IndexOutOfRange);
    assert DijkstraRounds(a, [true, false, false], d1, 1) == Failure(IndexOutOfRange);
  }

  /**
   * With the single edge 2 -> 1, `Dijkstra` as written from vertex 2 leaves vertex 1 at the
   * sentinel, though the edge reaches it: its shortest distance is 1.
   */
  lemma DijkstraAsWrittenMissesEdge()
    ensures var g := [[], [Pair(1, 1.0)]];
            TargetsInRange(g) && NonNegativeWeights(g) && SortedLists(g) &&
            DijkstraAsWritten(Allocated(g), 2) == Success([Infinite, Finite(0.0)]) &&
            !IsShortestDistances(g, 1, [Infinite, Finite(0.0)])
  {
    var g: Graph := [[], [Pair(1, 1.0)]];
    var a := Allocated(g);
    var d0 := [Infinite, Finite(0.0)];
    assert seq(2, _ => Infinite)[1 := Finite(0.0)] == d0;
    assert SelectFrom([false, false], d0, 0, -1) == 1;
    assert RelaxAsWritten(a[1].items, d0, 0) == Success(d0);
    assert SelectFrom([false, true], d0, 0, -1) == 0;
    assert DijkstraRounds(a, [false, true], d0, 1) == Success(d0);
    assert IsWalk(g, 1, 0, [Hop(1, 0)]);
    assert !IsShortestDistance(g, 1, 0, Infinite);
  }

  // FindSaturationTime

  /**
   * `FindSaturationTime` as written: `Dijkstra` of `SimplifyGraph(graph)`, then the latest
   * candidate over the edges of `graph`, clamped at zero.
   */
  function FindSaturationTimeAsWritten(g: Graph, startVertex: int, epsilon: real): (r: Outcome<Distance>)
    ensures SimplifyGraphAsWritten(g).Failure? ==> r == Failure(NullReference)
    ensures r.Success? ==> !Shorter(r.value, Finite(0.0))
  {
    match SimplifyGraphAsWritten(g)
    case Failure(f) => Failure(f)
    case Success(simple) =>
      match DijkstraAsWritten(simple, startVertex)
      case Failure(f) => Failure(f)
      case Success(d) => if |d| == |g| then Success(SaturationTime(g, d, epsilon)) else Failure(IndexOutOfRange)
  }

  /**
   * `FindSaturationTime` as written raises `NullReferenceException` on every graph and every
   * start vertex: either `SimplifyGraph` adds to a `null` list, or it returns only `null`
   * lists and `Dijkstra` reads the count of the start vertex's.
   */
  lemma FindSaturationTimeAsWrittenFaults(g: Graph, startVertex: int, epsilon: real)
    requires 1 <= startVertex <= |g|
    ensures FindSaturationTimeAsWritten(g, startVertex, epsilon) == Failure(NullReference)
  {
    SimplifyGraphAsWrittenNull(g, 0);
    if SimplifyGraphAsWritten(g).Success? {
      var simple := seq(|g|, _ => NullList);
      var visited := seq(|g|, _ => false);
      var d := seq(|g|, _ => Infinite)[startVertex - 1 := Finite(0.0)];
      SelectFromLeast(visited, d, 0, -1);
      var v := SelectFrom(visited, d, 0, -1);
      assert !Shorter(d[startVertex - 1], d[v]);
      assert simple[v].NullList?;
      assert DijkstraRounds(simple, visited, d, 0) == Failure(NullReference);
      assert SimplifyGraphAsWritten(g).value == simple;
    }
  }
}
