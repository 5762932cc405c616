/**
 * Depth-first search and Kosaraju's count of strongly connected components, as
 * `MetricOrientedGraph` runs them: recursive searches that mark a shared `bool[]`
 * and, in the first pass, append each vertex to a `List<int>` when it is finished.
 */
module Traversal {
  import opened Pairs
  import opened Graphs
  import opened Paths

  /** The `List<int>` that collects the finish order (1-based vertex numbers). */
  class VertexList {
    var items: seq<int>

    constructor ()
      ensures items == []
    {
      items := [];
    }

    method Add(x: int)
      modifies this
      ensures items == old(items) + [x]
    {
      items := items + [x];
    }
  }

  ghost predicate NoDuplicates(s: seq<int>) {
    forall i, j :: 0 <= i < j < |s| ==> s[i] != s[j]
  }

  lemma NoDuplicatesAppend(a: seq<int>, b: seq<int>)
    requires NoDuplicates(a) && NoDuplicates(b) && forall x :: x in a ==> x !in b
    ensures NoDuplicates(a + b)
  {
    forall i, j | 0 <= i < j < |a + b|
      ensures (a + b)[i] != (a + b)[j]
    {
      if i < |a| && j >= |a| {
        assert (a + b)[i] in a && (a + b)[j] == b[j - |a|];
      }
    }
  }

  /** The number of unvisited vertices: what every recursive `DFS` call makes smaller. */
  ghost function CountUnvisited(s: seq<bool>): nat {
    if |s| == 0 then 0 else CountUnvisited(s[..|s| - 1]) + if s[|s| - 1] then 0 else 1
  }

  /** Marking more never adds unvisited vertices. */
  lemma {:induction false} CountUnvisitedAtMost(a: seq<bool>, b: seq<bool>)
    requires Grows(a, b)
    ensures CountUnvisited(b) <= CountUnvisited(a)
  {
    if |a| > 0 {
      var n := |a| - 1;
      assert Grows(a[..n], b[..n]);
      CountUnvisitedAtMost(a[..n], b[..n]);
    }
  }

  /** Marking a vertex that was unmarked removes one unvisited vertex at least. */
  lemma {:induction false} CountUnvisitedGrows(a: seq<bool>, b: seq<bool>, k: int)
    requires Grows(a, b) && 0 <= k < |b| && b[k]
    ensures CountUnvisited(b) + (if a[k] then 0 else 1) <= CountUnvisited(a)
  {
    var n := |a| - 1;
    assert Grows(a[..n], b[..n]);
    if k < n {
      CountUnvisitedGrows(a[..n], b[..n], k);
    } else {
      CountUnvisitedAtMost(a[..n], b[..n]);
    }
  }

  /** Nothing marked: every vertex is unvisited. */
  lemma {:induction false} CountUnvisitedNone(a: seq<bool>)
    requires forall k :: 0 <= k < |a| ==> !a[k]
    ensures CountUnvisited(a) == |a|
  {
    if |a| > 0 {
      CountUnvisitedNone(a[..|a| - 1]);
    }
  }

  /** No vertex is unvisited exactly when all are marked. */
  lemma {:induction false} CountUnvisitedZero(a: seq<bool>)
    ensures CountUnvisited(a) == 0 <==> forall k :: 0 <= k < |a| ==> a[k]
  {
    if |a| > 0 {
      var n := |a| - 1;
      CountUnvisitedZero(a[..n]);
      if CountUnvisited(a) == 0 {
        assert forall k :: 0 <= k < n ==> a[..n][k];
      } else if a[n] {
        assert exists k :: 0 <= k < n && !a[..n][k];
      }
    }
  }

  /** Marking one unvisited vertex leaves one fewer. */
  lemma {:induction false} CountUnvisitedMark(a: seq<bool>, k: int)
    requires 0 <= k < |a| && !a[k]
    ensures CountUnvisited(a[k := true]) == CountUnvisited(a) - 1
  {
    var n := |a| - 1;
    var b := a[k := true];
    if k < n {
      assert b[..n] == a[..n][k := true];
      CountUnvisitedMark(a[..n], k);
    } else {
      assert b[..n] == a[..n];
    }
  }

  /** Every vertex marked in `after` but not in `before` is reached from `s` avoiding `before`. */
  ghost predicate NewlyReached(g: Graph, before: seq<bool>, s: int, after: seq<bool>) {
    forall k {:trigger ReachableAvoiding(g, before, s, k)} ::
      0 <= k < |after| && k < |before| && after[k] && !before[k] ==> ReachableAvoiding(g, before, s, k)
  }

  /** Every vertex marked in `after` but not in `before`, other than `except`, has its successors marked. */
  ghost predicate NewlyClosed(g: Graph, before: seq<bool>, after: seq<bool>, except: int) {
    forall k {:trigger SuccessorsMarked(g, after, k)} ::
      0 <= k < |g| && k < |after| && k < |before| && after[k] && !before[k] && k != except ==>
      SuccessorsMarked(g, after, k)
  }

  /**
   * A search from `s` is under way: `s` is marked, flags only grow, and everything it has
   * marked so far is reached from `s` and, `s` apart, has its successors marked.
   */
  ghost predicate Searching(g: Graph, entry: seq<bool>, now: seq<bool>, s: int) {
    && |entry| == |g|
    && Grows(entry, now)
    && 0 <= s < |g| && now[s]
    && NewlyReached(g, entry, s, now)
    && NewlyClosed(g, entry, now, s)
  }

  /**
   * A search from `s` has finished: starting from the marking `entry`, a vertex is marked
   * exactly when it was marked or is reached from `s` through vertices unmarked in `entry`;
   * flags only grow, and every vertex the search marked has all its successors marked.
   */
  ghost predicate Searched(g: Graph, entry: seq<bool>, after: seq<bool>, s: int) {
    && |entry| == |g|
    && Grows(entry, after)
    && 0 <= s < |g| && after[s]
    && SuccessorsMarked(g, after, s)
    && NewlyClosed(g, entry, after, -1)
    && forall k {:trigger ReachableAvoiding(g, entry, s, k)} ::
      0 <= k < |g| ==> (after[k] <==> entry[k] || ReachableAvoiding(g, entry, s, k))
  }

  /** The successors of list `list` before position `i` are marked. */
  ghost predicate PrefixMarked(list: seq<Pair>, now: seq<bool>, i: int) {
    0 <= i <= |list| && forall j :: 0 <= j < i ==> 1 <= list[j].First <= |now| && now[list[j].First - 1]
  }

  lemma SuccessorsMarkedGrows(g: Graph, a: seq<bool>, b: seq<bool>, u: int)
    requires 0 <= u < |g| && Grows(a, b) && SuccessorsMarked(g, a, u)
    ensures SuccessorsMarked(g, b, u)
  {
  }

  /** Marking `s` starts a search from it. */
  lemma SearchStart(g: Graph, entry: seq<bool>, s: int)
    requires |entry| == |g| && 0 <= s < |g|
    ensures Searching(g, entry, entry[s := true], s) && PrefixMarked(g[s], entry[s := true], 0)
  {
    ReachableAvoidingSelf(g, entry, s);
  }

  /**
   * The loop of a search at `s` after a recursive search from its successor `g[s][i]`,
   * unmarked until then: what the recursion marked is reached from `s` and closed.
   */
  lemma SearchStep(g: Graph, entry: seq<bool>, mid: seq<bool>, after: seq<bool>, s: int, list: seq<Pair>, i: int, u: int)
    requires Searching(g, entry, mid, s) && list == g[s] && PrefixMarked(list, mid, i) && i < |list|
    requires u == list[i].First - 1 && 0 <= u < |g| && !mid[u]
    requires Searched(g, mid, after, u)
    ensures Searching(g, entry, after, s) && PrefixMarked(list, after, i + 1)
  {
    EdgeOf(g, s, i);
    forall k | 0 <= k < |after| && after[k] && !entry[k]
      ensures ReachableAvoiding(g, entry, s, k)
      ensures k != s ==> SuccessorsMarked(g, after, k)
    {
      if mid[k] {
        if k != s {
          SuccessorsMarkedGrows(g, mid, after, k);
        }
      } else {
        ReachableAvoidingPrepend(g, entry, mid, s, u, k);
      }
    }
  }

  /** Once all successors of `s` are marked, the search from `s` has finished. */
  lemma SearchComplete(g: Graph, entry: seq<bool>, after: seq<bool>, s: int)
    requires Searching(g, entry, after, s) && PrefixMarked(g[s], after, |g[s]|)
    ensures Searched(g, entry, after, s)
  {
    forall k | 0 <= k < |g| && ReachableAvoiding(g, entry, s, k)
      ensures after[k]
    {
      ClosedReachesMarked(g, entry, after, s, k);
    }
  }

  /**
   * `DFS(graph, vertex, visited)`: marks `vertex` and, recursively, every successor not yet
   * marked. Afterwards a vertex is marked exactly when it was before or `vertex` reaches it
   * through vertices that were unmarked, and every vertex this call marked has all its
   * successors marked.
   */
  method DFS(graph: array<seq<Pair>>, vertex: int, visited: array<bool>)
    requires 1 <= vertex <= graph.Length == visited.Length
    requires TargetsInRange(graph[..])
    modifies visited
    ensures Searched(graph[..], old(visited[..]), visited[..], vertex - 1)
    decreases CountUnvisited(visited[..]) + (if visited[vertex - 1] then 1 else 0)
  {
    ghost var g := graph[..];
    ghost var entry := visited[..];
    visited[vertex - 1] := true;
    SearchStart(g, entry, vertex - 1);
    var list := graph[vertex - 1];
    var i := 0;
    while i < |list|
      invariant Searching(g, entry, visited[..], vertex - 1) && PrefixMarked(list, visited[..], i)
    {
      var target := list[i].First;
      assert 1 <= target <= graph.Length by {
        assert g[vertex - 1][i].First == target;
      }
      if !visited[target - 1] {
        ghost var mid := visited[..];
        CountUnvisitedGrows(entry, mid, vertex - 1);
        DFS(graph, target, visited);
        assert Searched(g, mid, visited[..], target - 1);
        SearchStep(g, entry, mid, visited[..], vertex - 1, list, i, target - 1);
      }
      i := i + 1;
    }
    SearchComplete(g, entry, visited[..], vertex - 1);
  }

  /** `added` records, once each, the vertices marked in `after` but not in `before`, except `vertex`. */
  ghost predicate Records(added: seq<int>, before: seq<bool>, after: seq<bool>, vertex: int) {
    && |before| == |after|
    && NoDuplicates(added)
    && forall x :: x in added <==> 1 <= x <= |after| && after[x - 1] && !before[x - 1] && x != vertex
  }

  /**
   * A search from `vertex` that started at the marking `entry` took `items` to `items'`:
   * it appended, once each, `vertex` and the vertices it marked, and `vertex` last.
   */
  ghost predicate Appended(items: seq<int>, items': seq<int>, entry: seq<bool>, after: seq<bool>, vertex: int) {
    && |items| < |items'| && items'[..|items|] == items
    && items'[|items'| - 1] == vertex
    && NoDuplicates(items'[|items|..])
    && forall x :: x in items'[|items|..] <==>
      x == vertex || (1 <= x <= |after| && |entry| == |after| && after[x - 1] && !entry[x - 1])
  }

  /** The finish-order loop after a recursive search from the unmarked successor `u`. */
  lemma RecordStep(entryItems: seq<int>, added: seq<int>, items: seq<int>, entry: seq<bool>, mid: seq<bool>,
                   after: seq<bool>, vertex: int, u: int)
    requires Records(added, entry, mid, vertex) && Grows(entry, mid) && Grows(mid, after)
    requires 1 <= vertex <= |mid| && mid[vertex - 1] && 1 <= u <= |mid| && !mid[u - 1] && after[u - 1]
    requires Appended(entryItems + added, items, mid, after, u)
    ensures items == entryItems + (added + items[|entryItems + added|..])
    ensures Records(added + items[|entryItems + added|..], entry, after, vertex)
  {
    var more := items[|entryItems + added|..];
    assert items == (entryItems + added) + more;
    forall x | x in added
      ensures x !in more
    {
      assert 1 <= x <= |mid| && mid[x - 1];
    }
    NoDuplicatesAppend(added, more);
    forall x
      ensures x in added + more <==> 1 <= x <= |after| && after[x - 1] && !entry[x - 1] && x != vertex
    {
      if x in added {
        assert 1 <= x <= |mid| && mid[x - 1] && !entry[x - 1] && x != vertex;
      }
      if x in more {
        assert 1 <= x <= |after| && after[x - 1] && !mid[x - 1];
      }
    }
  }

  /** Appending `vertex` at the end of the search completes its record. */
  lemma RecordFinish(entryItems: seq<int>, added: seq<int>, entry: seq<bool>, after: seq<bool>, vertex: int)
    requires Records(added, entry, after, vertex) && 1 <= vertex <= |after| && after[vertex - 1]
    ensures Appended(entryItems, entryItems + added + [vertex], entry, after, vertex)
  {
    assert (entryItems + added + [vertex])[|entryItems|..] == added + [vertex];
    NoDuplicatesAppend(added, [vertex]);
  }

  /**
   * `DFS(graph, vertex, visited, order)`: the same search, which also appends each vertex
   * to `order` when its search finishes: every vertex this call marks is appended exactly
   * once, `vertex` is appended whatever its flag was, and `vertex` comes last (post-order).
   */
  method DFSWithOrder(graph: array<seq<Pair>>, vertex: int, visited: array<bool>, order: VertexList)
    requires 1 <= vertex <= graph.Length == visited.Length
    requires TargetsInRange(graph[..])
    modifies visited, order
    ensures Searched(graph[..], old(visited[..]), visited[..], vertex - 1)
    ensures Appended(old(order.items), order.items, old(visited[..]), visited[..], vertex)
    decreases CountUnvisited(visited[..]) + (if visited[vertex - 1] then 1 else 0)
  {
    ghost var g := graph[..];
    ghost var entry := visited[..];
    ghost var entryItems := order.items;
    ghost var added: seq<int> := [];
    visited[vertex - 1] := true;
    SearchStart(g, entry, vertex - 1);
    var list := graph[vertex - 1];
    var i := 0;
    while i < |list|
      invariant Searching(g, entry, visited[..], vertex - 1) && PrefixMarked(list, visited[..], i)
      invariant order.items == entryItems + added && Records(added, entry, visited[..], vertex)
    {
      var target := list[i].First;
      assert 1 <= target <= graph.Length by {
        assert g[vertex - 1][i].First == target;
      }
      if !visited[target - 1] {
        ghost var mid := visited[..];
        CountUnvisitedGrows(entry, mid, vertex - 1);
        DFSWithOrder(graph, target, visited, order);
        assert Searched(g, mid, visited[..], target - 1);
        SearchStep(g, entry, mid, visited[..], vertex - 1, list, i, target - 1);
        RecordStep(entryItems, added, order.items, entry, mid, visited[..], vertex, target);
        added := added + order.items[|entryItems + added|..];
      }
      i := i + 1;
    }
    SearchComplete(g, entry, visited[..], vertex - 1);
    RecordFinish(entryItems, added, entry, visited[..], vertex);
    order.Add(vertex);
  }

  /**
   * After a top-level search of the first pass: it started at the unmarked `root` when the
   * marked set `before` was closed, and marked exactly `before` plus what `root` reaches.
   */
  ghost predicate LastSearch(g: Graph, before: seq<bool>, root: int, visited: seq<bool>) {
    && |before| == |g| && |visited| == |g| && 0 <= root < |g|
    && Closed(g, before) && !before[root]
    && forall k {:trigger ReachableAvoiding(g, before, root, k)} ::
      0 <= k < |g| ==> (visited[k] <==> before[k] || ReachableAvoiding(g, before, root, k))
  }

  /**
   * The first pass has run for vertices 1 .. `i`: those are marked, the marked set is closed,
   * `items` lists the marked vertices once each, and the last search was from `root`.
   */
  ghost predicate FirstPassAfter(g: Graph, i: int, visited: seq<bool>, items: seq<int>, before: seq<bool>, root: int) {
    && |visited| == |g| && 0 <= i <= |g|
    && (i == 0 ==> forall k :: 0 <= k < |g| ==> !visited[k])
    && (forall k :: 0 <= k < i ==> visited[k])
    && Closed(g, visited)
    && NoDuplicates(items)
    && (forall x :: x in items <==> 1 <= x <= |g| && visited[x - 1])
    && (i > 0 ==> LastSearch(g, before, root, visited) && |items| > 0 && items[|items| - 1] == root + 1)
  }

  lemma FirstPassStart(g: Graph, visited: seq<bool>)
    requires |visited| == |g| && forall k :: 0 <= k < |g| ==> !visited[k]
    ensures FirstPassAfter(g, 0, visited, [], [], 0)
  {
  }

  /** A search launched from the unmarked vertex `i + 1` of the first pass. */
  lemma FirstPassLaunch(g: Graph, i: int, b: seq<bool>, after: seq<bool>, items: seq<int>, items': seq<int>,
                        before: seq<bool>, root: int)
    requires FirstPassAfter(g, i, b, items, before, root) && i < |g| && !b[i]
    requires Searched(g, b, after, i) && Appended(items, items', b, after, i + 1)
    ensures FirstPassAfter(g, i + 1, after, items', b, i)
  {
    forall u | 0 <= u < |g| && after[u]
      ensures SuccessorsMarked(g, after, u)
    {
      if b[u] {
        SuccessorsMarkedGrows(g, b, after, u);
      }
    }
    assert items' == items + items'[|items|..];
    NoDuplicatesAppend(items, items'[|items|..]);
  }

  /** Removing one element of a list of distinct values removes exactly that value. */
  lemma RemoveAt(s: seq<int>, m: int)
    requires NoDuplicates(s) && 0 <= m < |s|
    ensures NoDuplicates(s[..m] + s[m + 1..])
    ensures forall x :: x in s[..m] + s[m + 1..] <==> x in s && x != s[m]
  {
    var s' := s[..m] + s[m + 1..];
    assert forall i :: 0 <= i < |s'| ==> s'[i] == s[if i < m then i else i + 1];
    forall x | x in s'
      ensures x in s && x != s[m]
    {
      var i :| 0 <= i < |s'| && s'[i] == x;
      var j := if i < m then i else i + 1;
      if j < m {
        assert s[j] != s[m];
      } else {
        assert s[m] != s[j];
      }
    }
    forall x | x in s && x != s[m]
      ensures x in s'
    {
      var j :| 0 <= j < |s| && s[j] == x;
      assert s'[if j < m then j else j - 1] == x;
    }
  }

  /** A vertex found marked in the first pass launches nothing. */
  lemma FirstPassSkip(g: Graph, i: int, visited: seq<bool>, items: seq<int>, before: seq<bool>, root: int)
    requires FirstPassAfter(g, i, visited, items, before, root) && i < |g| && visited[i]
    ensures FirstPassAfter(g, i + 1, visited, items, before, root)
  {
  }

  /** A list of distinct values that are exactly 1 .. `n` has length `n`. */
  lemma {:induction false} DistinctRange(s: seq<int>, n: nat)
    requires NoDuplicates(s) && forall x :: x in s <==> 1 <= x <= n
    ensures |s| == n
  {
    if |s| == 0 {
      assert n !in s;
    } else {
      assert s[0] in s;
      assert 1 <= s[0] <= n;
      assert n in s;
      var m :| 0 <= m < |s| && s[m] == n;
      RemoveAt(s, m);
      var s' := s[..m] + s[m + 1..];
      forall x
        ensures x in s' <==> 1 <= x <= n - 1
      {
        assert x in s' <==> x in s && x != n;
      }
      DistinctRange(s', n - 1);
    }
  }

  /**
   * The finish order of the first pass: it lists each vertex once, and its last vertex
   * `root` is reached back by every vertex that reaches it.
   */
  ghost predicate FinishOrder(g: Graph, finish: seq<int>, root: int) {
    && |finish| == |g|
    && (forall x :: x in finish <==> 1 <= x <= |g|)
    && (|g| > 0 ==> 0 <= root < |g| && finish[|g| - 1] == root + 1)
    && forall x :: 0 <= x < |g| && Reachable(g, x, root) ==> Reachable(g, root, x)
  }

  /**
   * After the first pass every vertex is marked and the order is a finish order: any vertex
   * outside the last search lies in a closed set without that search's root.
   */
  lemma FirstPassDone(g: Graph, visited: seq<bool>, items: seq<int>, before: seq<bool>, root: int)
    requires FirstPassAfter(g, |g|, visited, items, before, root)
    ensures FinishOrder(g, items, root)
  {
    DistinctRange(items, |g|);
    forall x | 0 <= x < |g| && Reachable(g, x, root)
      ensures Reachable(g, root, x)
    {
      if before[x] {
        ClosedReachable(g, before, x, root);
      }
      ReachableAvoidingIsReachable(g, before, root, x);
    }
  }

  /**
   * The second pass has searched the transpose `t` from the last `i` vertices of the finish
   * order `finish` that were unmarked, `count` searches in all; `firstReach` is what the
   * first search, from the last finished vertex `root`, marked.
   */
  ghost predicate SecondPassAfter(t: Graph, finish: seq<int>, i: int, visited: seq<bool>, count: int,
                                  root: int, firstReach: seq<bool>) {
    var n := |t|;
    && |visited| == n && |finish| == n && 0 <= i <= n
    && (n > 0 ==> finish[n - 1] == root + 1)
    && (forall m :: 0 <= m < n ==> 1 <= finish[m] <= n)
    && 0 <= count <= i && (i > 0 ==> 1 <= count)
    && (i == 0 ==> forall k :: 0 <= k < n ==> !visited[k])
    && (forall m :: n - i <= m < n ==> visited[finish[m] - 1])
    && (i > 0 ==> |firstReach| == n && forall k {:trigger Reachable(t, root, k)} :: 0 <= k < n ==> (firstReach[k] <==> Reachable(t, root, k)))
    && (i > 0 && count == 1 ==> visited == firstReach)
    && (i > 0 && (forall k :: 0 <= k < n ==> firstReach[k]) ==> count == 1)
  }

  lemma SecondPassStart(g: Graph, t: Graph, finish: seq<int>, v: seq<bool>, root: int)
    requires |t| == |g| && FinishOrder(g, finish, root)
    requires |v| == |t| && forall k :: 0 <= k < |t| ==> !v[k]
    ensures SecondPassAfter(t, finish, 0, v, 0, root, [])
  {
    assert forall m :: 0 <= m < |t| ==> finish[m] in finish;
  }

  /**
   * A search of the second pass from the unmarked vertex `finish[n - 1 - i]`; the first
   * one, from the last finished vertex, marks what that vertex reaches in `t`.
   */
  lemma SecondPassLaunch(t: Graph, finish: seq<int>, i: int, v: seq<bool>, after: seq<bool>, count: int,
                         root: int, fr: seq<bool>)
    requires SecondPassAfter(t, finish, i, v, count, root, fr) && 0 <= i < |t|
    requires !v[finish[|t| - 1 - i] - 1] && Searched(t, v, after, finish[|t| - 1 - i] - 1)
    ensures SecondPassAfter(t, finish, i + 1, after, count + 1, root, if i == 0 then after else fr)
  {
    if i == 0 {
      forall k | 0 <= k < |t|
        ensures after[k] <==> Reachable(t, root, k)
      {
        ReachableAvoidingNothing(t, v, root, k);
      }
    }
  }

  /** A vertex of the finish order found marked launches nothing. */
  lemma SecondPassSkip(t: Graph, finish: seq<int>, i: int, v: seq<bool>, count: int, root: int, fr: seq<bool>)
    requires SecondPassAfter(t, finish, i, v, count, root, fr) && 0 <= i < |t|
    requires v[finish[|t| - 1 - i] - 1]
    ensures SecondPassAfter(t, finish, i + 1, v, count, root, fr)
  {
  }

  /**
   * The count of the second pass lies in [1, N], and it is 1 exactly when the graph is
   * strongly connected.
   */
  lemma SecondPassDone(g: Graph, t: Graph, finish: seq<int>, v: seq<bool>, count: int, root: int, fr: seq<bool>)
    requires IsTransposeOf(t, g) && SecondPassAfter(t, finish, |t|, v, count, root, fr)
    requires FinishOrder(g, finish, root)
    ensures |g| == 0 ==> count == 0
    ensures |g| > 0 ==> 1 <= count <= |g| && (count == 1 <==> StronglyConnected(g))
  {
    var n := |g|;
    forall x | 0 <= x < n
      ensures v[x]
    {
      assert x + 1 in finish;
    }
    if count == 1 {
      forall a, b | 0 <= a < n && 0 <= b < n
        ensures Reachable(g, a, b)
      {
        ReachableTransposed(t, g, root, a);
        ReachableTransposed(t, g, root, b);
        ReachableTransitive(g, a, root, b);
      }
    }
    if StronglyConnected(g) {
      forall k | 0 <= k < n
        ensures fr[k]
      {
        ReachableTransposed(t, g, root, k);
      }
    }
  }

  /** The loops of `FindAmountOfStronglyConnectedComponents` that reset every mark to false. */
  method ClearVisited(visited: array<bool>)
    modifies visited
    ensures forall k :: 0 <= k < visited.Length ==> !visited[k]
  {
    var i := 0;
    while i < visited.Length
      invariant 0 <= i <= visited.Length
      invariant forall k :: 0 <= k < i ==> !visited[k]
    {
      visited[i] := false;
      i := i + 1;
    }
  }

  /**
   * The first pass of Kosaraju's algorithm: a search with finish order from each vertex, in
   * vertex order, that is still unmarked. Afterwards `order` lists every vertex once, and the
   * last vertex finished, `root + 1`, is reached back by every vertex that reaches it.
   */
  method FinishOrderPass(graph: array<seq<Pair>>, visited: array<bool>, order: VertexList) returns (ghost root: int)
    requires TargetsInRange(graph[..]) && visited.Length == graph.Length
    requires (forall k :: 0 <= k < visited.Length ==> !visited[k]) && order.items == []
    modifies visited, order
    ensures FinishOrder(graph[..], order.items, root)
    ensures forall k :: 0 <= k < visited.Length ==> visited[k]
  {
    ghost var g := graph[..];
    root := 0;
    ghost var before: seq<bool> := [];
    FirstPassStart(g, visited[..]);
    var i := 0;
    while i < graph.Length
      invariant FirstPassAfter(g, i, visited[..], order.items, before, root)
    {
      if !visited[i] {
        ghost var b := visited[..];
        ghost var items := order.items;
        DFSWithOrder(graph, i + 1, visited, order);
        FirstPassLaunch(g, i, b, visited[..], items, order.items, before, root);
        root, before := i, b;
      } else {
        FirstPassSkip(g, i, visited[..], order.items, before, root);
      }
      i := i + 1;
    }
    FirstPassDone(g, visited[..], order.items, before, root);
  }

  /**
   * The second pass of Kosaraju's algorithm: a search of the transpose from each vertex, in
   * reverse finish order, that is still unmarked, counting the searches. The count is 1
   * exactly when `g` is strongly connected.
   */
  method CountComponentsPass(transposeGraph: array<seq<Pair>>, visited: array<bool>, order: VertexList,
                             ghost g: Graph, ghost root: int)
    returns (amountOfComponents: int)
    requires IsTransposeOf(transposeGraph[..], g) && FinishOrder(g, order.items, root)
    requires visited.Length == transposeGraph.Length && forall k :: 0 <= k < visited.Length ==> !visited[k]
    modifies visited
    ensures forall k :: 0 <= k < visited.Length ==> visited[k]
    ensures |g| == 0 ==> amountOfComponents == 0
    ensures |g| > 0 ==> 1 <= amountOfComponents <= |g| && (amountOfComponents == 1 <==> StronglyConnected(g))
  {
    ghost var t := transposeGraph[..];
    ghost var finish := order.items;
    TransposeTargetsInRange(t, g);
    SecondPassStart(g, t, finish, visited[..], root);
    amountOfComponents := 0;
    ghost var firstReach: seq<bool> := [];
    var i := 0;
    while i < transposeGraph.Length
      invariant SecondPassAfter(t, finish, i, visited[..], amountOfComponents, root, firstReach)
    {
      var next := order.items[transposeGraph.Length - i - 1];
      if !visited[next - 1] {
        ghost var cleared := visited[..];
        DFS(transposeGraph, next, visited);
        assert Searched(t, cleared, visited[..], next - 1);
        SecondPassLaunch(t, finish, i, cleared, visited[..], amountOfComponents, root, firstReach);
        firstReach := if i == 0 then visited[..] else firstReach;
        amountOfComponents := amountOfComponents + 1;
      } else {
        SecondPassSkip(t, finish, i, visited[..], amountOfComponents, root, firstReach);
      }
      i := i + 1;
    }
    SecondPassDone(g, t, finish, visited[..], amountOfComponents, root, firstReach);
    forall k | 0 <= k < visited.Length
      ensures visited[k]
    {
      assert k + 1 in finish;
      var m :| 0 <= m < |finish| && finish[m] == k + 1;
    }
  }

  /**
   * `FindAmountOfStronglyConnectedComponents`: Kosaraju's algorithm. The first pass records
   * the finish order of searches launched in vertex order; the second searches the
   * transpose in reverse finish order and counts the launches. For a graph with vertices
   * the count lies in [1, N], and it is 1 exactly when the graph is strongly connected,
   * the test its callers make.
   */
  method FindAmountOfStronglyConnectedComponents(graph: array<seq<Pair>>) returns (amountOfComponents: int)
    requires TargetsInRange(graph[..])
    ensures graph.Length == 0 ==> amountOfComponents == 0
    ensures graph.Length > 0 ==> 1 <= amountOfComponents <= graph.Length
    ensures graph.Length > 0 ==> (amountOfComponents == 1 <==> StronglyConnected(graph[..]))
  {
    var visited := new bool[graph.Length];
    ClearVisited(visited);
    var order := new VertexList();
    ghost var root := FinishOrderPass(graph, visited, order);
    ClearVisited(visited);
    var transposeGraph := GetTransposeGraph(graph);
    amountOfComponents := CountComponentsPass(transposeGraph, visited, order, graph[..], root);
  }
}
