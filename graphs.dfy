/**
 * The graph representation of `MetricOrientedGraph`: an array `List<Pair<int, double>>[]`
 * with one edge list per vertex. Vertices are numbered from 1; the list of vertex `v`
 * sits at index `v - 1` and holds pairs `(target, weight)`, kept sorted by `CompareTo`.
 * Here each array cell holds the list as a sequence; inserting into a list assigns the
 * cell its new value.
 */
module Graphs {
  import opened Pairs

  /** The abstract value of a graph: the edge lists, vertex `v`'s at index `v - 1`. */
  type Graph = seq<seq<Pair>>

  /** Every target names a vertex of the graph, so `graph[target - 1]` exists. */
  ghost predicate TargetsInRange(g: Graph) {
    forall u, j :: 0 <= u < |g| && 0 <= j < |g[u]| ==> 1 <= g[u][j].First <= |g|
  }

  ghost predicate NonNegativeWeights(g: Graph) {
    forall u, j :: 0 <= u < |g| && 0 <= j < |g[u]| ==> g[u][j].Second >= 0.0
  }

  /** Non-decreasing by `CompareTo`, checked pair by pair as the source does. */
  ghost predicate Sorted(s: seq<Pair>) {
    forall i :: 0 <= i < |s| - 1 ==> LessOrEqual(s[i], s[i + 1])
  }

  /** A target among the `n` vertices and a weight in [1, 100]. */
  ghost predicate ValidEdge(e: Pair, n: int) {
    1 <= e.First <= n && 1.0 <= e.Second <= 100.0
  }

  ghost predicate ValidList(s: seq<Pair>, n: int) {
    (forall j :: 0 <= j < |s| ==> ValidEdge(s[j], n)) && Sorted(s)
  }

  /** The graph invariant that `CheckGraphValidity` tests. */
  ghost predicate ValidGraph(g: Graph) {
    forall u :: 0 <= u < |g| ==> ValidList(g[u], |g|)
  }

  lemma ValidGraphIsWellFormed(g: Graph)
    requires ValidGraph(g)
    ensures TargetsInRange(g) && NonNegativeWeights(g)
    ensures forall u :: 0 <= u < |g| ==> Sorted(g[u])
  {
    forall u, j | 0 <= u < |g| && 0 <= j < |g[u]|
      ensures 1 <= g[u][j].First <= |g| && g[u][j].Second >= 0.0
    {
      assert ValidList(g[u], |g|);
    }
  }

  /**
   * `CheckGraphValidity`: true exactly for a non-null graph whose every edge has a target
   * among its vertices and a weight in [1, 100], and whose every list is sorted.
   */
  method CheckGraphValidity(graph: array?<seq<Pair>>) returns (valid: bool)
    ensures valid <==> graph != null && ValidGraph(graph[..])
  {
    if graph == null {
      return false;
    }
    var u := 0;
    while u < graph.Length
      invariant 0 <= u <= graph.Length
      invariant forall v :: 0 <= v < u ==> ValidList(graph[v], graph.Length)
    {
      var list := graph[u];
      var j := 0;
      while j < |list|
        invariant 0 <= j <= |list|
        invariant forall k :: 0 <= k < j ==> ValidEdge(list[k], graph.Length)
      {
        var pair := list[j];
        if pair.First < 1 || pair.First > graph.Length || pair.Second < 1.0 || pair.Second > 100.0 {
          assert !ValidList(graph[..][u], graph.Length);
          return false;
        }
        j := j + 1;
      }
      var i := 0;
      while i < |list| - 1
        invariant 0 <= i <= |list|
        invariant forall k :: 0 <= k < i && k < |list| - 1 ==> LessOrEqual(list[k], list[k + 1])
      {
        if list[i].First > list[i + 1].First ||
           (list[i].First == list[i + 1].First && list[i].Second > list[i + 1].Second)
        {
          assert !ValidList(graph[..][u], graph.Length);
          return false;
        }
        i := i + 1;
      }
      u := u + 1;
    }
    return true;
  }

  /** `list.Insert(r, a)`. */
  function InsertAt(s: seq<Pair>, r: int, a: Pair): (t: seq<Pair>)
    requires 0 <= r <= |s|
    ensures |t| == |s| + 1 && t[r] == a
    ensures multiset(t) == multiset(s) + multiset{a}
  {
    assert s == s[..r] + s[r..];
    s[..r] + [a] + s[r..]
  }

  /** `arrow` fits between `s[i]` and `s[i + 1]`: the test of `AddEdgeToGraph`'s loop. */
  predicate FitsAfter(s: seq<Pair>, arrow: Pair, i: int) {
    0 <= i < |s| - 1 && GreaterOrEqual(arrow, s[i]) && LessOrEqual(arrow, s[i + 1])
  }

  /**
   * The index at which `AddEdgeToGraph` inserts `arrow` into the list `s`: at the front
   * when `arrow <= s[0]`, at the end when `arrow >= ` the last pair, and otherwise after
   * the first `s[i]` with `s[i] <= arrow <= s[i + 1]`; -1 when that scan finds no such `i`,
   * which `InsertionIndexInRange` shows never happens, on any list, sorted or not.
   */
  function InsertionIndex(s: seq<Pair>, arrow: Pair): (r: int)
    ensures -1 <= r <= |s|
    ensures |s| > 0 && r == 0 ==> LessOrEqual(arrow, s[0])
    ensures 0 < r < |s| ==> FitsAfter(s, arrow, r - 1)
    ensures 0 < r == |s| ==> GreaterOrEqual(arrow, s[|s| - 1])
  {
    if |s| == 0 then 0
    else if LessOrEqual(arrow, s[0]) then 0
    else if GreaterOrEqual(arrow, s[|s| - 1]) then |s|
    else GapAfter(s, arrow, 0)
  }

  /**
   * The scan of `AddEdgeToGraph`'s loop from index `i` on: one past the first gap from `i`
   * where `arrow` fits, or -1 when there is none.
   */
  function GapAfter(s: seq<Pair>, arrow: Pair, i: nat): (r: int)
    ensures r == -1 || i < r < |s|
    ensures r != -1 ==> FitsAfter(s, arrow, r - 1) && forall k :: i <= k < r - 1 ==> !FitsAfter(s, arrow, k)
    ensures r == -1 ==> forall k :: i <= k < |s| - 1 ==> !FitsAfter(s, arrow, k)
    decreases |s| - i
  {
    if i >= |s| - 1 then -1
    else if FitsAfter(s, arrow, i) then i + 1
    else GapAfter(s, arrow, i + 1)
  }

  /**
   * `AddEdgeToGraph(graph, vertex, arrow)`: inserts `arrow` into the list of `vertex`
   * and returns the index it now has there; only that list changes. The index is never
   * -1, whatever the order of the list; a sorted list stays sorted.
   */
  method AddEdgeToGraph(graph: array<seq<Pair>>, vertex: int, arrow: Pair) returns (index: int)
    requires 1 <= vertex <= graph.Length
    modifies graph
    ensures index == InsertionIndex(old(graph[vertex - 1]), arrow)
    ensures 0 <= index <= |old(graph[vertex - 1])|
    ensures graph[vertex - 1] == InsertAt(old(graph[vertex - 1]), index, arrow)
    ensures multiset(graph[vertex - 1]) == multiset(old(graph[vertex - 1])) + multiset{arrow}
    ensures Sorted(old(graph[vertex - 1])) ==> Sorted(graph[vertex - 1])
    ensures graph[..] == old(graph[..])[vertex - 1 := graph[vertex - 1]]
  {
    var list := graph[vertex - 1];
    if |list| == 0 {
      index := 0;                               // Add to an empty list
    } else if LessOrEqual(arrow, list[0]) {
      index := 0;                               // Insert(0, arrow)
    } else if GreaterOrEqual(arrow, list[|list| - 1]) {
      index := |list|;                          // Add after the last pair
    } else {
      index := -1;
      var i := 0;
      while index == -1 && i < |list| - 1
        invariant 0 <= i <= |list| - 1
        invariant index == -1 ==> GapAfter(list, arrow, i) == GapAfter(list, arrow, 0)
        invariant index != -1 ==> index == GapAfter(list, arrow, 0) && 0 < index < |list|
      {
        if GreaterOrEqual(arrow, list[i]) && LessOrEqual(arrow, list[i + 1]) {
          index := i + 1;                       // Insert(i + 1, arrow)
        }
        i := i + 1;
      }
      InsertionIndexInRange(list, arrow);     // so the "unreachable" -1 is never returned
    }
    graph[vertex - 1] := InsertAt(list, index, arrow);
    if Sorted(list) {
      InsertionIndexSorted(list, arrow);
    }
  }

  /** Any two pairs of a sorted list are in order, not only neighbours. */
  lemma {:induction false} SortedAllPairs(s: seq<Pair>, i: int, j: int)
    requires Sorted(s) && 0 <= i <= j < |s|
    ensures LessOrEqual(s[i], s[j])
    decreases j - i
  {
    if i < j {
      SortedAllPairs(s, i + 1, j);
      CompareToTransitive(s[i], s[i + 1], s[j]);
    }
  }

  /** The loop of `AddEdgeToGraph` finds a gap once it starts at a pair not above `arrow`. */
  lemma {:induction false} GapAfterFound(s: seq<Pair>, arrow: Pair, i: nat)
    requires i < |s| && GreaterOrEqual(arrow, s[i]) && Less(arrow, s[|s| - 1])
    ensures i + 1 <= GapAfter(s, arrow, i) <= |s| - 1
    ensures GreaterOrEqual(arrow, s[GapAfter(s, arrow, i) - 1])
    ensures LessOrEqual(arrow, s[GapAfter(s, arrow, i)])
    decreases |s| - i
  {
    if !LessOrEqual(arrow, s[i + 1]) {
      GapAfterFound(s, arrow, i + 1);
    }
  }

  /**
   * On every list, sorted or not, the insertion index lies in [0, |s|]: when `arrow` is
   * above the first pair and below the last, the scan meets a gap before the end.
   */
  lemma InsertionIndexInRange(s: seq<Pair>, arrow: Pair)
    ensures 0 <= InsertionIndex(s, arrow) <= |s|
  {
    if |s| > 0 && !LessOrEqual(arrow, s[0]) && !GreaterOrEqual(arrow, s[|s| - 1]) {
      CompareToTotal(arrow, s[0]);
      CompareToTotal(arrow, s[|s| - 1]);
      GapAfterFound(s, arrow, 0);
    }
  }

  /**
   * On a sorted list the insertion index lies in [0, |s|] (so -1 is never returned),
   * every pair before it is <= `arrow`, every pair from it on is >= `arrow`, and the
   * list with `arrow` inserted there is still sorted.
   */
  lemma InsertionIndexSorted(s: seq<Pair>, arrow: Pair)
    requires Sorted(s)
    ensures 0 <= InsertionIndex(s, arrow) <= |s|
    ensures forall k :: 0 <= k < InsertionIndex(s, arrow) ==> LessOrEqual(s[k], arrow)
    ensures forall k :: InsertionIndex(s, arrow) <= k < |s| ==> LessOrEqual(arrow, s[k])
    ensures Sorted(InsertAt(s, InsertionIndex(s, arrow), arrow))
  {
    var r := InsertionIndex(s, arrow);
    if |s| > 0 && !LessOrEqual(arrow, s[0]) && !GreaterOrEqual(arrow, s[|s| - 1]) {
      GapAfterFound(s, arrow, 0);
    }
    assert 0 <= r <= |s|;
    forall k | 0 <= k < r
      ensures LessOrEqual(s[k], arrow)
    {
      SortedAllPairs(s, k, r - 1);
      CompareToTransitive(s[k], s[r - 1], arrow);
    }
    forall k | r <= k < |s|
      ensures LessOrEqual(arrow, s[k])
    {
      SortedAllPairs(s, r, k);
      CompareToTransitive(arrow, s[r], s[k]);
    }
    InsertSorted(s, r, arrow);
  }

  /** Inserting a pair between its neighbours keeps a list sorted. */
  lemma InsertSorted(s: seq<Pair>, r: int, arrow: Pair)
    requires Sorted(s) && 0 <= r <= |s|
    requires r > 0 ==> LessOrEqual(s[r - 1], arrow)
    requires r < |s| ==> LessOrEqual(arrow, s[r])
    ensures Sorted(InsertAt(s, r, arrow))
  {
    var t := InsertAt(s, r, arrow);
    assert t == s[..r] + [arrow] + s[r..];
    forall i | 0 <= i < |t| - 1
      ensures LessOrEqual(t[i], t[i + 1])
    {
      if i + 1 < r {
        assert t[i] == s[i] && t[i + 1] == s[i + 1];
      } else if i + 1 == r {
        assert t[i] == s[i] && t[i + 1] == arrow;
      } else if i == r {
        assert t[i] == arrow && t[i + 1] == s[r];
      } else {
        assert t[i] == s[i - 1] && t[i + 1] == s[i];
      }
    }
  }

  lemma SortedTail(s: seq<Pair>)
    requires Sorted(s) && |s| > 0
    ensures Sorted(s[1..])
  {
    forall i | 0 <= i < |s| - 2
      ensures LessOrEqual(s[1..][i], s[1..][i + 1])
    {
      assert s[1..][i] == s[i + 1] && s[1..][i + 1] == s[i + 2];
    }
  }

  /** The first pair of a sorted list is the least. */
  lemma SortedFirstLeast(s: seq<Pair>, x: Pair)
    requires Sorted(s) && x in multiset(s)
    ensures LessOrEqual(s[0], x)
  {
    var k :| 0 <= k < |s| && s[k] == x;
    SortedAllPairs(s, 0, k);
  }

  lemma MultisetTail(s: seq<Pair>)
    requires |s| > 0
    ensures multiset(s[1..]) == multiset(s) - multiset{s[0]}
  {
    assert s == [s[0]] + s[1..];
  }

  /** Two non-empty sorted lists with the same pairs start alike and go on alike. */
  lemma SortedHeads(a: seq<Pair>, b: seq<Pair>)
    requires Sorted(a) && Sorted(b) && multiset(a) == multiset(b) && |a| > 0 && |b| > 0
    ensures a[0] == b[0]
    ensures Sorted(a[1..]) && Sorted(b[1..]) && multiset(a[1..]) == multiset(b[1..])
  {
    SortedFirstLeast(b, a[0]);
    SortedFirstLeast(a, b[0]);
    CompareToTotal(a[0], b[0]);
    MultisetTail(a);
    MultisetTail(b);
    SortedTail(a);
    SortedTail(b);
  }

  /** Two sorted lists with the same pairs, counted with multiplicity, are equal. */
  lemma {:induction false} SortedUnique(a: seq<Pair>, b: seq<Pair>)
    requires Sorted(a) && Sorted(b) && multiset(a) == multiset(b)
    ensures a == b
  {
    assert |a| == |multiset(a)| == |multiset(b)| == |b|;
    if |a| > 0 {
      SortedHeads(a, b);
      SortedUnique(a[1..], b[1..]);
      assert a == [a[0]] + a[1..];
      assert b == [b[0]] + b[1..];
    }
  }

  /**
   * The sources of the edges into vertex `v` from the list `list` of vertex `u`: one pair
   * `(u, w)` for each pair `(v, w)` of the list.
   */
  ghost function Sources(list: seq<Pair>, u: int, v: int): multiset<Pair>
  {
    if |list| == 0 then multiset{}
    else
      var last := list[|list| - 1];
      Sources(list[..|list| - 1], u, v) + if last.First == v then multiset{Pair(u, last.Second)} else multiset{}
  }

  /** The edges into vertex `v` of `g`, each as the pair `(source vertex, weight)`. */
  ghost function Incoming(g: Graph, v: int): multiset<Pair>
  {
    if |g| == 0 then multiset{} else Incoming(g[..|g| - 1], v) + Sources(g[|g| - 1], |g|, v)
  }

  /** List `v` of `t` is sorted and holds the reversed edges into vertex `v + 1` of `g`. */
  ghost predicate TransposedList(t: Graph, g: Graph, v: int) {
    0 <= v < |t| && Sorted(t[v]) && multiset(t[v]) == Incoming(g, v + 1)
  }

  /** `t` is a transpose of `g`: sorted lists, and each edge `u -> v` of `g` reversed. */
  ghost predicate IsTransposeOf(t: Graph, g: Graph) {
    |t| == |g| && forall v :: 0 <= v < |t| ==> TransposedList(t, g, v)
  }

  lemma {:induction false} SourcesCount(list: seq<Pair>, u: int, v: int, p: Pair)
    ensures Sources(list, u, v)[p] == if p.First == u then multiset(list)[Pair(v, p.Second)] else 0
  {
    if |list| > 0 {
      var n := |list| - 1;
      SourcesCount(list[..n], u, v, p);
      assert list == list[..n] + [list[n]];
    }
  }

  /**
   * `(u, w)` occurs in the edges into `v` exactly as often as `(v, w)` occurs in the list of
   * `u`, and never for a `u` that is not a vertex.
   */
  lemma {:induction false} IncomingCount(g: Graph, v: int, p: Pair)
    ensures Incoming(g, v)[p] == if 1 <= p.First <= |g| then multiset(g[p.First - 1])[Pair(v, p.Second)] else 0
  {
    if |g| > 0 {
      var n := |g| - 1;
      IncomingCount(g[..n], v, p);
      SourcesCount(g[n], |g|, v, p);
    }
  }

  /** The list of vertex `v` in a transpose holds `(u, w)` exactly as often as `g`'s list of `u` holds `(v, w)`. */
  lemma TransposeCount(t: Graph, g: Graph, v: int, p: Pair)
    requires IsTransposeOf(t, g) && 0 <= v < |t|
    ensures multiset(t[v])[p] == if 1 <= p.First <= |g| then multiset(g[p.First - 1])[Pair(v + 1, p.Second)] else 0
  {
    assert TransposedList(t, g, v);
    IncomingCount(g, v + 1, p);
  }

  /** Every target of a transpose names a vertex. */
  lemma TransposeTargetsInRange(t: Graph, g: Graph)
    requires IsTransposeOf(t, g)
    ensures TargetsInRange(t)
  {
    forall v, j | 0 <= v < |t| && 0 <= j < |t[v]|
      ensures 1 <= t[v][j].First <= |t|
    {
      TransposeCount(t, g, v, t[v][j]);
    }
  }

  /** Transposing a valid graph gives a valid graph. */
  lemma TransposeValid(t: Graph, g: Graph)
    requires IsTransposeOf(t, g) && ValidGraph(g)
    ensures ValidGraph(t)
  {
    forall v, j | 0 <= v < |t| && 0 <= j < |t[v]|
      ensures ValidEdge(t[v][j], |t|)
    {
      var p := t[v][j];
      TransposeCount(t, g, v, p);
      assert 1 <= p.First <= |g|;
      var e := Pair(v + 1, p.Second);
      assert e in multiset(g[p.First - 1]);
      var k :| 0 <= k < |g[p.First - 1]| && g[p.First - 1][k] == e;
      assert ValidList(g[p.First - 1], |g|);
    }
    forall v | 0 <= v < |t|
      ensures ValidList(t[v], |t|)
    {
      assert TransposedList(t, g, v);
    }
  }

  /** The transpose of a transpose of a valid graph is the graph itself. */
  lemma TransposeTwice(g: Graph, t: Graph, tt: Graph)
    requires ValidGraph(g) && IsTransposeOf(t, g) && IsTransposeOf(tt, t)
    ensures tt == g
  {
    forall v | 0 <= v < |g|
      ensures tt[v] == g[v]
    {
      forall p
        ensures multiset(tt[v])[p] == multiset(g[v])[p]
      {
        TransposeCount(tt, t, v, p);
        if 1 <= p.First <= |g| {
          TransposeCount(t, g, p.First - 1, Pair(v + 1, p.Second));
        } else {
          assert ValidList(g[v], |g|);
          assert p !in g[v];
        }
      }
      assert multiset(tt[v]) == multiset(g[v]);
      assert ValidList(g[v], |g|) && TransposedList(tt, t, v);
      SortedUnique(tt[v], g[v]);
    }
  }

  /**
   * List `v` of `t` is sorted and holds the reversed edges into vertex `v + 1` from the lists
   * of vertices 1 .. `i` of `g` and from `done`, the part of vertex `i + 1`'s list already
   * processed.
   */
  ghost predicate PartlyTransposedList(t: Graph, g: Graph, i: nat, done: seq<Pair>, v: int) {
    i <= |g| && 0 <= v < |t| && Sorted(t[v]) &&
    multiset(t[v]) == Incoming(g[..i], v + 1) + Sources(done, i + 1, v + 1)
  }

  /** Every list of `t` holds what `PartlyTransposedList` says. */
  ghost predicate TransposedUpTo(t: Graph, g: Graph, i: nat, done: seq<Pair>) {
    |t| == |g| && i <= |g| && forall v :: 0 <= v < |t| ==> PartlyTransposedList(t, g, i, done, v)
  }

  /** Nothing processed: all lists empty. */
  lemma TransposeStart(t: Graph, g: Graph)
    requires |t| == |g| && forall v :: 0 <= v < |t| ==> t[v] == []
    ensures TransposedUpTo(t, g, 0, [])
  {
    forall v | 0 <= v < |t|
      ensures PartlyTransposedList(t, g, 0, [], v)
    {
      assert t[v] == [];
    }
  }

  /** Inserting the reversed edge `list[j]` into its list of `t` extends what `t` holds by it. */
  lemma TransposeStepEdge(t: Graph, g: Graph, i: nat, list: seq<Pair>, j: int, l: seq<Pair>)
    requires 0 <= j < |list| && TransposedUpTo(t, g, i, list[..j])
    requires 1 <= list[j].First <= |t|
    requires Sorted(l) && multiset(l) == multiset(t[list[j].First - 1]) + multiset{Pair(i + 1, list[j].Second)}
    ensures TransposedUpTo(t[list[j].First - 1 := l], g, i, list[..j + 1])
  {
    var t' := t[list[j].First - 1 := l];
    var done := list[..j];
    var e := list[j];
    var done' := list[..j + 1];
    assert done' == done + [e];
    assert done'[..|done|] == done;
    forall v | 0 <= v < |t'|
      ensures PartlyTransposedList(t', g, i, done', v)
    {
      assert PartlyTransposedList(t, g, i, done, v);
      if v == e.First - 1 {
        assert Sources(done', i + 1, v + 1) == Sources(done, i + 1, v + 1) + multiset{Pair(i + 1, e.Second)};
      } else {
        assert t'[v] == t[v];
        assert Sources(done', i + 1, v + 1) == Sources(done, i + 1, v + 1);
      }
    }
  }

  /** Once the whole list of vertex `i + 1` is processed, `t` holds the lists of 1 .. `i + 1`. */
  lemma TransposeStepList(t: Graph, g: Graph, i: nat)
    requires i < |g| && TransposedUpTo(t, g, i, g[i])
    ensures TransposedUpTo(t, g, i + 1, [])
  {
    var next := i + 1;
    assert g[..next][..i] == g[..i];
    forall v | 0 <= v < |t|
      ensures PartlyTransposedList(t, g, next, [], v)
    {
      assert PartlyTransposedList(t, g, i, g[i], v);
    }
  }

  /** Once every list is processed, `t` is the transpose. */
  lemma TransposeDone(t: Graph, g: Graph)
    requires TransposedUpTo(t, g, |g|, [])
    ensures IsTransposeOf(t, g)
  {
    assert g[..|g|] == g;
    forall v | 0 <= v < |t|
      ensures TransposedList(t, g, v)
    {
      assert PartlyTransposedList(t, g, |g|, [], v);
    }
  }

  /**
   * The inner loop of `GetTransposeGraph`: adds the reversed edge `target -> i + 1` for each
   * pair of `list`, the list of vertex `i + 1`, to the transpose under construction.
   */
  method AddReversedEdges(transposeGraph: array<seq<Pair>>, list: seq<Pair>, i: nat, ghost g: Graph)
    requires i < |g| && list == g[i] && TargetsInRange(g)
    requires TransposedUpTo(transposeGraph[..], g, i, [])
    modifies transposeGraph
    ensures TransposedUpTo(transposeGraph[..], g, i + 1, [])
  {
    var j := 0;
    assert list[..0] == [];
    while j < |list|
      invariant 0 <= j <= |list|
      invariant TransposedUpTo(transposeGraph[..], g, i, list[..j])
    {
      ghost var before := transposeGraph[..];
      var edge := list[j];
      assert 1 <= edge.First <= transposeGraph.Length by {
        assert g[i][j] == edge;
      }
      assert PartlyTransposedList(before, g, i, list[..j], edge.First - 1);
      var _ := AddEdgeToGraph(transposeGraph, edge.First, Pair(i + 1, edge.Second));
      TransposeStepEdge(before, g, i, list, j, transposeGraph[edge.First - 1]);
      j := j + 1;
    }
    assert list[..j] == g[i];
    TransposeStepList(transposeGraph[..], g, i);
  }

  /**
   * `GetTransposeGraph`: a new graph with the same vertices in which each edge `u -> v` of
   * weight `w` becomes `v -> u` of weight `w`, built by `AddEdgeToGraph` into empty lists.
   */
  method GetTransposeGraph(graph: array<seq<Pair>>) returns (transposeGraph: array<seq<Pair>>)
    requires TargetsInRange(graph[..])
    ensures fresh(transposeGraph)
    ensures IsTransposeOf(transposeGraph[..], graph[..])
  {
    ghost var g := graph[..];
    transposeGraph := new seq<Pair>[graph.Length](_ => []);
    TransposeStart(transposeGraph[..], g);
    var i := 0;
    while i < graph.Length
      invariant 0 <= i <= graph.Length == transposeGraph.Length
      invariant TransposedUpTo(transposeGraph[..], g, i, [])
    {
      AddReversedEdges(transposeGraph, graph[i], i, g);
      i := i + 1;
    }
    TransposeDone(transposeGraph[..], g);
  }
}
