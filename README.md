# GraphLib: a verified model of `MetricOrientedGraph` and `Pair`

GraphLib stores a weighted directed graph as an array `List<Pair<int, double>>[]`.
Each vertex has one list of `(target, weight)` pairs. Vertices are numbered from 1,
and the list of vertex `v` sits at index `v - 1`. The lists are kept sorted by
`Pair.CompareTo`. The static class `MetricOrientedGraph` offers these operations:

- a validity check;
- an ordered insert of an edge;
- the transposed graph;
- depth-first search, with and without a finish order;
- Kosaraju's count of strongly connected components;
- a simplification that drops loops and parallel edges;
- Dijkstra's algorithm with the sentinel `double.MaxValue`;
- the "saturation time": the latest moment at which a flow started at one vertex has
  filled every edge it reaches.

The Dafny model has one module per concern:

| file | module | models |
|---|---|---|
| `pairs.dfy` | `Pairs` | `Pair<int, double>`: constructors, `CompareTo`, the six operators, `Equals` |
| `graphs.dfy` | `Graphs` | the representation, `CheckGraphValidity`, `AddEdgeToGraph`, `GetTransposeGraph` |
| `paths.dfy` | `Paths` | paths, reachability, strong connectivity, and reachability in the transpose |
| `traversal.dfy` | `Traversal` | both `DFS` overloads and `FindAmountOfStronglyConnectedComponents` |
| `walks.dfy` | `Walks` | weighted walks, the `Distance` type (a length or the sentinel), shortest distances |
| `shortestpaths.dfy` | `ShortestPaths` | `Dijkstra` |
| `simplify.dfy` | `Simplify` | `SimplifyGraph`, and the proof that it keeps shortest distances |
| `saturation.dfy` | `Saturation` | `FindSaturationTime` |
| `aswritten.dfy` | `AsWritten` | `SimplifyGraph`, `Dijkstra` and `FindSaturationTime` exactly as written, with their exceptions |

The graph operations are imperative methods over `array<seq<Pair>>`. Each array cell
holds one vertex's list as a sequence, and an insert assigns the cell its new list.
The `visited` flags and the distance table are `array<bool>` and `array<Distance>`.
The `order` list is the class `Traversal.VertexList`. Every method is proved against
ghost specification functions and predicates over `seq<seq<Pair>>`:

- `IsTransposeOf` for the transpose;
- `Searched`, `Appended` and `FinishOrder` for the searches;
- `IsShortestDistances` for Dijkstra;
- `SaturationTime` for the saturation time.

Lemmas then relate those specifications to each other and to the source's promises.

`SimplifyGraph` and the relaxation step of `Dijkstra` do not do what their authors
evidently meant (see "## Findings"). The modules `Simplify`, `ShortestPaths` and
`Saturation` model the intended behaviour. `AsWritten` models the code as written and
proves counterexamples against it.

## Model

| member | source | states |
|---|---|---|
| `Pairs.Default` | GraphLib/Pair.cs:83-87 | `Pair()` gives both components their default value, 0 and 0.0 |
| `Pairs.Make` | GraphLib/Pair.cs:98-102 | the two-argument constructor stores both components unchanged |
| `Pairs.CompareInt` | GraphLib/Pair.cs:183 | `Int32.CompareTo` is -1, 0 or 1, negative exactly when less, 0 exactly when equal |
| `Pairs.CompareReal` | GraphLib/Pair.cs:184 | `Double.CompareTo` on numbers is -1, 0 or 1, negative exactly when less, 0 exactly when equal |
| `Pairs.CompareTo` | GraphLib/Pair.cs:180-186 | `First` decides unless the firsts tie, then `Second` decides; 0 exactly for equal pairs; the sign is the lexicographic order |
| `Pairs.CompareToReflexive` | GraphLib/Pair.cs:180-186 | a pair compares equal to itself |
| `Pairs.CompareToAntisymmetric` | GraphLib/Pair.cs:180-186 | swapping the operands negates the result |
| `Pairs.CompareToTransitive` | GraphLib/Pair.cs:180-186 | `<=` is transitive, and strict if either step is strict |
| `Pairs.CompareToTotal` | GraphLib/Pair.cs:180-186 | any two pairs are comparable; `<=` both ways means equal pairs |
| `Pairs.Greater` | GraphLib/Pair.cs:190-193 | `p1 > p2` holds exactly when `p1` comes after `p2` in the lexicographic order: a larger `First`, or an equal `First` and a larger `Second` |
| `Pairs.Less` | GraphLib/Pair.cs:194-197 | `p1 < p2` holds exactly when `p1` comes before `p2` lexicographically |
| `Pairs.GreaterOrEqual` | GraphLib/Pair.cs:198-201 | `p1 >= p2` holds exactly when `p1` comes after `p2` lexicographically or equals it |
| `Pairs.LessOrEqual` | GraphLib/Pair.cs:202-205 | `p1 <= p2` holds exactly when `p1` comes before `p2` lexicographically or equals it |
| `Pairs.Equal` | GraphLib/Pair.cs:206-209 | `p1 == p2` holds exactly when both components are equal |
| `Pairs.NotEqual` | GraphLib/Pair.cs:210-213 | `p1 != p2` holds exactly when some component differs |
| `Pairs.OperatorsAgree` | GraphLib/Pair.cs:190-213 | exactly one of `<`, `==`, `>` holds; `<=` is not `>`; `>=` is not `<`; `!=` is not `==`; `==` is component equality |
| `Pairs.AsPair` | GraphLib/Pair.cs:119 | `obj as Pair` is non-null exactly for a pair, and then it is that pair |
| `Pairs.EqualsPair` | GraphLib/Pair.cs:133-137 | `Equals(Pair)` is false for null and otherwise holds exactly for an equal pair |
| `Pairs.EqualsObject` | GraphLib/Pair.cs:116-120 | `Equals(object)` is false for null and for a non-pair, and otherwise agrees with `==` |
| `Graphs.CheckGraphValidity` | GraphLib/MetricOrientedGraph.cs:12-31 | true exactly for a non-null graph whose targets are in 1..N, whose weights are in [1, 100] and whose lists are non-decreasing |
| `Graphs.ValidGraphIsWellFormed` | GraphLib/MetricOrientedGraph.cs:20-28 | a valid graph has targets in range, non-negative weights and sorted lists, which the other operations rely on |
| `Graphs.InsertAt` | GraphLib/MetricOrientedGraph.cs:97 | `List.Insert(r, a)` puts `a` at `r`, keeps the other pairs, and adds one `a` to the multiset |
| `Graphs.AddEdgeToGraph` | GraphLib/MetricOrientedGraph.cs:85-114 | returns the insertion index of the search, which lies in [0, count] and is never -1 on any list, sorted or not; the new list is the old one with `arrow` inserted at that index, so it holds one more `arrow`; a sorted list stays sorted; no other list changes |
| `Graphs.InsertionIndex` | GraphLib/MetricOrientedGraph.cs:90-113 | the index `AddEdgeToGraph` returns: in [-1, count]; 0 on a non-empty list only when `arrow` is `<=` the first pair; the count only when `arrow` is `>=` the last pair; in between, a gap where `s[r - 1] <= arrow <= s[r]` |
| `Graphs.GapAfter` | GraphLib/MetricOrientedGraph.cs:105-113 | the loop returns one past the first gap from `i` where `s[k] <= arrow <= s[k + 1]`, and -1 exactly when no gap from `i` on fits |
| `Graphs.InsertionIndexInRange` | GraphLib/MetricOrientedGraph.cs:90-113 | on every list the search finds an index in [0, count]: once `arrow` is above the first pair and below the last, the scan meets a gap before the end, so the `return -1` marked unreachable at line 112 is indeed never reached |
| `Graphs.InsertionIndexSorted` | GraphLib/MetricOrientedGraph.cs:90-111 | on a sorted list the index found is in range, everything before it is `<=` the arrow and everything after is `>=`, so inserting there keeps the list sorted |
| `Graphs.InsertSorted` | GraphLib/MetricOrientedGraph.cs:105-111 | inserting between a `<=` neighbour and a `>=` neighbour keeps a sorted list sorted |
| `Graphs.SortedUnique` | GraphLib/MetricOrientedGraph.cs:24-28 | two sorted lists with the same multiset of pairs are equal |
| `Graphs.GetTransposeGraph` | GraphLib/MetricOrientedGraph.cs:139-156 | the result is a new array with the same vertex count; each of its lists is sorted and holds `(u, w)` exactly as often as list `u` of the input holds an edge to it of weight `w` |
| `Graphs.AddReversedEdges` | GraphLib/MetricOrientedGraph.cs:149-154 | the inner loop adds the reversed edges of one vertex, keeping the lists built so far sorted and exact |
| `Graphs.TransposeCount` | GraphLib/MetricOrientedGraph.cs:148-154 | in the transpose, `(u, w)` occurs in list `v` as often as `(v, w)` occurs in list `u` |
| `Graphs.TransposeTargetsInRange` | GraphLib/MetricOrientedGraph.cs:150-153 | the transpose's targets are vertices |
| `Graphs.TransposeValid` | GraphLib/MetricOrientedGraph.cs:139-156 | the transpose of a valid graph is valid |
| `Graphs.TransposeTwice` | GraphLib/MetricOrientedGraph.cs:139-156 | transposing a valid graph twice gives back the graph |
| `Paths.TransposeEdge` | GraphLib/MetricOrientedGraph.cs:150-154 | `v -> u` is an edge of the transpose exactly when `u -> v` is an edge of the graph |
| `Paths.ReachableTransposed` | GraphLib/MetricOrientedGraph.cs:172-182 | `x` reaches `s` in the transpose exactly when `s` reaches `x` in the graph |
| `Paths.ReachableTransitive` | GraphLib/MetricOrientedGraph.cs:186-196 | reachability is transitive |
| `Paths.ReachableAvoidingNothing` | GraphLib/MetricOrientedGraph.cs:186-196 | with nothing marked, reaching through unmarked vertices is plain reachability |
| `Paths.ClosedReachable` | GraphLib/MetricOrientedGraph.cs:186-196 | a marked set closed under edges contains everything its vertices reach |
| `Traversal.VertexList.constructor` | GraphLib/MetricOrientedGraph.cs:164 | `new List<int>()` is empty |
| `Traversal.VertexList.Add` | GraphLib/MetricOrientedGraph.cs:208 | `order.Add(x)` appends `x` |
| `Traversal.DFS` | GraphLib/MetricOrientedGraph.cs:186-196 | afterwards a vertex is marked exactly when it was marked before or is reached from `vertex` through vertices unmarked before; no flag is cleared; `vertex` and every vertex it marked have all their successors marked |
| `Traversal.DFSWithOrder` | GraphLib/MetricOrientedGraph.cs:197-209 | marks as `DFS` does, and appends to `order` each newly marked vertex exactly once, `vertex` last |
| `Traversal.CountUnvisitedMark` | GraphLib/MetricOrientedGraph.cs:222-231 | marking an unmarked vertex, as `visited[v] = true` does in each round of `Dijkstra`, lowers the number of unmarked vertices by one |
| `Traversal.CountUnvisitedZero` | GraphLib/MetricOrientedGraph.cs:222-228 | no vertex is unmarked exactly when all are marked, so after `N` rounds of `Dijkstra` its selection loop finds no unvisited vertex |
| `Traversal.ClearVisited` | GraphLib/MetricOrientedGraph.cs:162-163 | the clearing loop leaves every flag false |
| `Traversal.FirstPassDone` | GraphLib/MetricOrientedGraph.cs:165-168 | after the first pass `order` lists every vertex 1..N once, and every vertex that reaches the last root is reached back from it |
| `Traversal.FinishOrderPass` | GraphLib/MetricOrientedGraph.cs:161-168 | the first pass produces such a finish order, and leaves every flag of `visited` set |
| `Traversal.SecondPassDone` | GraphLib/MetricOrientedGraph.cs:174-183 | after the second pass the count is 0 for no vertex, otherwise in [1, N], and 1 exactly when every vertex reaches every vertex |
| `Traversal.CountComponentsPass` | GraphLib/MetricOrientedGraph.cs:170-183 | the second pass over the transpose in reverse finish order yields that count, and leaves every flag of `visited` set |
| `Traversal.FindAmountOfStronglyConnectedComponents` | GraphLib/MetricOrientedGraph.cs:158-184 | 0 for the empty graph; otherwise a count in [1, N] that is 1 exactly when the graph is strongly connected, the test the UI makes |
| `Walks.ShortestDistanceUnique` | GraphLib/MetricOrientedGraph.cs:211-239 | a vertex has at most one shortest distance |
| `Walks.ShortestDistancesUnique` | GraphLib/MetricOrientedGraph.cs:211-239 | so the table of shortest distances from a vertex is unique |
| `Walks.ShortestDistancesFromIs` | GraphLib/MetricOrientedGraph.cs:241-246 | any table of shortest distances is the one `FindSaturationTime` is specified with |
| `Walks.WalkWeightNonNegative` | GraphLib/MetricOrientedGraph.cs:22-23 | with non-negative weights no walk is negative |
| `Walks.ReachableIffWalk` | GraphLib/MetricOrientedGraph.cs:186-239 | a walk leads from `s` to `x` exactly when `x` is reachable from `s` |
| `Walks.DistanceFiniteIffReachable` | GraphLib/MetricOrientedGraph.cs:229-230 | a shortest distance is the sentinel exactly for the vertices not reachable from the source |
| `ShortestPaths.ClosestUnvisited` | GraphLib/MetricOrientedGraph.cs:224-228 | -1 exactly when every vertex is visited; otherwise the first unvisited vertex of least entry: no unvisited entry undercuts it, and every unvisited vertex before it has a strictly greater entry; the result is `SelectFrom` from index 0 with no vertex held |
| `ShortestPaths.RelaxEdges` | GraphLib/MetricOrientedGraph.cs:232-236 | relaxes every edge of `v`, keeping all finite entries lengths of walks and the visited ones shortest; the new table is the old one with each entry the least of its old value and the candidates `shortestWays[v] + w` of the edges of `v` to it (no greater than any, and equal to one of them), so an entry no edge targets is unchanged and no entry rises |
| `ShortestPaths.FillUnreached` | GraphLib/MetricOrientedGraph.cs:219-221 | every entry starts at the sentinel |
| `ShortestPaths.SettleStep` | GraphLib/MetricOrientedGraph.cs:224-231 | the unvisited vertex of least finite entry holds its shortest distance when it is visited |
| `ShortestPaths.DijkstraDone` | GraphLib/MetricOrientedGraph.cs:222-238 | when every vertex is visited, or every unvisited entry is the sentinel, every entry is the shortest distance |
| `ShortestPaths.Dijkstra` | GraphLib/MetricOrientedGraph.cs:211-239 | returns a new table of length N holding, for every vertex, the length of a shortest walk from `vertex`, or the sentinel when no walk reaches it; the source entry is 0 |
| `Simplify.SimplifiedListFrom` | GraphLib/MetricOrientedGraph.cs:125-133 | every pair of a simplified list is a kept pair of the list, never a loop |
| `Simplify.SimplifiedListHas` | GraphLib/MetricOrientedGraph.cs:125-133 | every kept pair is in the simplified list |
| `Simplify.SimplifiedListCovers` | GraphLib/MetricOrientedGraph.cs:125-133 | in a sorted list every non-loop pair has a pair with the same target and no greater weight in the simplified list |
| `Simplify.SimplifiedListIncreasing` | GraphLib/MetricOrientedGraph.cs:128-133 | the simplified list of a sorted list has strictly increasing targets, so no parallel edges |
| `Simplify.SimplifiedListSorted` | GraphLib/MetricOrientedGraph.cs:125-133 | the simplified list of a sorted list is sorted |
| `Simplify.SimplifiedWellFormed` | GraphLib/MetricOrientedGraph.cs:116-137 | simplifying keeps targets in range and weights non-negative |
| `Simplify.SimplifiedDistance` | GraphLib/MetricOrientedGraph.cs:243-245 | a distance is shortest in the simplified graph exactly when it is shortest in the graph |
| `Simplify.SimplifiedDistances` | GraphLib/MetricOrientedGraph.cs:243-245 | so Dijkstra of the simplified graph gives the graph's shortest distances |
| `Simplify.SimplifyGraph` | GraphLib/MetricOrientedGraph.cs:116-137 | a new array of the same size whose list of each vertex is its simplified list |
| `Saturation.ListLatestBounds` | GraphLib/MetricOrientedGraph.cs:249-254 | the running maximum over one list is no earlier than its start and every candidate of the list, and is one of them |
| `Saturation.GraphLatestBounds` | GraphLib/MetricOrientedGraph.cs:247-255 | the running maximum over the first `n` lists is no earlier than 0 and every candidate of those lists, and is one of them |
| `Saturation.SaturationTime` | GraphLib/MetricOrientedGraph.cs:249-256 | the value `FindSaturationTime` computes from a table of distances: never below 0 and never below the running maximum of the candidates `dist[i] + w - epsilon` |
| `Saturation.SaturationTimeIsMaximum` | GraphLib/MetricOrientedGraph.cs:247-256 | the saturation time is at least 0 and at least `dist[i] + w - epsilon` for every edge, and is 0 or one of those sums |
| `Saturation.SimplifiedShortest` | GraphLib/MetricOrientedGraph.cs:243-245 | the table Dijkstra finds in the simplified graph is the graph's table of shortest distances |
| `Saturation.LatestCandidate` | GraphLib/MetricOrientedGraph.cs:247-255 | the two loops compute the running maximum over all edges, starting at 0 |
| `Saturation.FindSaturationTime` | GraphLib/MetricOrientedGraph.cs:241-257 | the graph has shortest distances from `startVertex`, and the result is the saturation time for them |
| `AsWritten.SimplifiedListAsWritten` | GraphLib/MetricOrientedGraph.cs:125-134 | the list the filter as written would build for vertex `i`, were it allocated: no longer than the input list |
| `AsWritten.SimplifiedListAsWrittenFilters` | GraphLib/MetricOrientedGraph.cs:125-134 | that list is a sub-multiset of the input list, and none of its pairs has `First == i` (the 0-based index, not the vertex) |
| `AsWritten.SimplifiedListAsWrittenKeeps` | GraphLib/MetricOrientedGraph.cs:125-134 | every pair that passes the test as written is in that list |
| `AsWritten.SimplifyGraphFrom` | GraphLib/MetricOrientedGraph.cs:123-135 | the loop from vertex `i` on fails exactly when some later vertex's loop reaches an `Add` on its null list, and then with `NullReferenceException` |
| `AsWritten.SimplifyGraphAsWritten` | GraphLib/MetricOrientedGraph.cs:116-137 | `SimplifyGraph` as written fails exactly when some vertex's loop reaches an `Add` |
| `AsWritten.SimplifyGraphAsWrittenNull` | GraphLib/MetricOrientedGraph.cs:119-136 | as written, `SimplifyGraph` raises `NullReferenceException` or returns only null lists |
| `AsWritten.SimplifyGraphAsWrittenFaults` | GraphLib/MetricOrientedGraph.cs:119-127 | as written, `SimplifyGraph` of the single edge 1 -> 2 raises `NullReferenceException` |
| `AsWritten.SimplifiedListAsWrittenKeepsLoopsAndCopies` | GraphLib/MetricOrientedGraph.cs:125-133 | even with allocated lists, the filter as written keeps a loop and the heavier copy of an edge, where the intended one keeps only the lighter copy |
| `ShortestPaths.SelectFrom` | GraphLib/MetricOrientedGraph.cs:224-228 | the selection loop returns the vertex held or an unvisited vertex from `j` on, and -1 exactly when none is held and every vertex from `j` on is visited |
| `ShortestPaths.SelectFromLeast` | GraphLib/MetricOrientedGraph.cs:224-228 | the vertex it selects has an entry no greater than the held one and than every unvisited entry from `j` on |
| `AsWritten.RelaxAsWritten` | GraphLib/MetricOrientedGraph.cs:232-236 | the relaxing loop as written either fails with `IndexOutOfRangeException` or returns a table of the same length |
| `AsWritten.RelaxAsWrittenLowers` | GraphLib/MetricOrientedGraph.cs:232-236 | when it succeeds, the relaxing loop as written raises no entry |
| `AsWritten.DijkstraRounds` | GraphLib/MetricOrientedGraph.cs:222-237 | the rounds of the outer loop as written, from round `i` on, return a table of the same length when they succeed |
| `AsWritten.DijkstraAsWritten` | GraphLib/MetricOrientedGraph.cs:211-239 | `Dijkstra` as written fails with `IndexOutOfRangeException` for a start vertex out of range, and otherwise returns a table of length N when it succeeds |
| `AsWritten.DijkstraAsWrittenOutOfRange` | GraphLib/MetricOrientedGraph.cs:232-236 | as written, `Dijkstra` on the valid cycle 1 -> 2 -> 3 -> 1 from vertex 1 raises `IndexOutOfRangeException` |
| `AsWritten.DijkstraAsWrittenMissesEdge` | GraphLib/MetricOrientedGraph.cs:232-236 | as written, `Dijkstra` on the single edge 2 -> 1 from vertex 2 leaves vertex 1 at the sentinel, which is not its shortest distance |
| `AsWritten.FindSaturationTimeAsWritten` | GraphLib/MetricOrientedGraph.cs:241-257 | `FindSaturationTime` as written fails with `NullReferenceException` whenever `SimplifyGraph` as written does, and a result it returns is never below 0 |
| `AsWritten.FindSaturationTimeAsWrittenFaults` | GraphLib/MetricOrientedGraph.cs:241-246 | as written, `FindSaturationTime` raises `NullReferenceException` for every graph and every valid start vertex |

## Left out

- `ReadGraphFromFile` (GraphLib/MetricOrientedGraph.cs:33-83) is file I/O and is not modelled. It has two defects that the model does not capture. The `TryParse` tests at lines 62, 65 and 68 lack a `!`, so every well-formed edge line is rejected. The per-vertex lists of the array allocated at lines 46-47 are never created.
- The WPF user interface is not modelled. It uses the core in three places: it reads a graph with `ReadGraphFromFile` (BeginningWPF/FileGraph.xaml.cs:35); it tests strong connectivity on the component count (BeginningWPF/DrawnGraph.xaml.cs:154), which `Traversal.FindAmountOfStronglyConnectedComponents` states; it adds each drawn edge with `AddEdgeToGraph` as `(i + 1, 0)` and uses the returned index to place the drawn edge (BeginningWPF/DrawnGraph.xaml.cs:238-246), which `Graphs.AddEdgeToGraph` states is never -1. That test sits in the `FindSaturationTime_Click` handler (BeginningWPF/DrawnGraph.xaml.cs:97-174), which also writes the edge weights; the handler does not call `MetricOrientedGraph.FindSaturationTime`.
- `Pair.GetHashCode` and `Pair.ToString` are library hashing and formatting. The `IsByRef` null checks of the setters do not apply to `Pair<int, double>`. The setters are not modelled: GraphLib never changes a pair after building it, but the user interface writes each edge weight in place through the `Second` setter (BeginningWPF/DrawnGraph.xaml.cs:124) after inserting the edge with weight 0. Parallel edges inserted that way can end up out of order by weight. Later calls of `AddEdgeToGraph` on such a list still return an index in range, which its contract states for every list. But the `Sorted` conclusion of `Graphs.AddEdgeToGraph` no longer applies to such a list, and such a graph does not meet the sorted-lists precondition of `Saturation.FindSaturationTime`. The model treats pairs as values and does not capture these in-place writes.
- The six comparison operators of GraphLib/Pair.cs:190-213 call `p1.CompareTo(p2)` and raise `NullReferenceException` when an operand is null. The model's operators take two pairs, which cannot be null, so that exception is not modelled.
- Weights are `real`, not `double`. There is no rounding, no NaN and no overflow. The sentinel `double.MaxValue` is `Distance.Infinite`, and `Plus` makes it absorb additions. That matches `double` for the weights in [1, 100] that `CheckGraphValidity` admits. The subtraction of a huge `epsilon` from the sentinel is not modelled.
- The per-vertex lists of the main model are sequences and cannot be null. `CheckGraphValidity`'s `list is null` test at line 18 is therefore always false here. A null graph is modelled, with `array?`. Null lists appear only in `AsWritten`, where `SimplifyGraph` produces them.
- Sharing of one `List` object between two array cells is not modelled. The cells hold values.
- Some inner loops of the source are separate methods here, because each loop then gets its own proof. These are `ClearVisited`, `FillUnreached`, `ClosestUnvisited`, `RelaxEdges`, `AddReversedEdges`, `FinishOrderPass`, `CountComponentsPass` and `LatestCandidate`. They run the same statements in the same order.
- `Graphs.AddEdgeToGraph`: requires `1 <= vertex <= graph.Length`. The source would raise `IndexOutOfRangeException` otherwise, and that exception is not modelled.
- `Graphs.GetTransposeGraph`: requires every target to be a vertex. On other graphs the source raises `IndexOutOfRangeException`, which is not modelled. `CheckGraphValidity` guarantees the condition, and the call at line 142 that would have checked it is commented out.
- `Traversal.DFS`: requires a vertex in range and targets in range. These are the same conditions, for the same reason. It also requires `visited.Length == graph.Length`, which is what every caller in the source passes: `new bool[graph.Length]` (GraphLib/MetricOrientedGraph.cs:161, 172).
- `Traversal.DFSWithOrder`: requires a vertex in range and targets in range, for the same reason, and `visited.Length == graph.Length`, as `DFS` does.
- `Traversal.FindAmountOfStronglyConnectedComponents`: requires targets in range, for the same reason. Its contract gives the count's range and says that the count is 1 exactly for a strongly connected graph. It does not state that a count above 1 equals the number of components, nor that each vertex is covered by exactly one launch of the second pass.
- `ShortestPaths.Dijkstra`: requires a start vertex in range, targets in range and non-negative weights. A valid graph has all three, and Dijkstra's algorithm is only correct with non-negative weights.
- `Saturation.FindSaturationTime`: requires a start vertex in range, targets in range, non-negative weights and sorted lists. A valid graph has all of them. Sorted lists are what make dropping the later copies of parallel edges keep shortest distances. The parameter `epsilon` has no default value: C#'s `epsilon = 0` default is not modelled, and a caller passes `0.0` explicitly.

## Findings

| source | as written | input that shows it | evidently intended | confidence | as-written member | corrected member |
|---|---|---|---|---|---|---|
| GraphLib/MetricOrientedGraph.cs:119-127 | `newGraph` is an array of null lists, and `newGraph[i].Add` is called on them | the graph with the single edge 1 -> 2 raises `NullReferenceException` | allocate `newGraph[i]` before adding to it | high; not executed | `AsWritten.SimplifyGraphAsWrittenFaults` | `Simplify.SimplifyGraph` |
| GraphLib/MetricOrientedGraph.cs:125-133 | the 1-based target is compared with the 0-based `i`, and a pair is kept when its target equals the previous one's | list `[(1, 4.0), (2, 1.0), (2, 5.0)]` of vertex 1 keeps `(1, 4.0)` and `(2, 5.0)` | drop loops, that is, targets equal to `i + 1`, and keep only the first pair of each run of equal targets, the lightest in a sorted list | high; not executed | `AsWritten.SimplifiedListAsWrittenKeepsLoopsAndCopies` | `Simplify.SimplifiedDistances` |
| GraphLib/MetricOrientedGraph.cs:232-236 | the relaxation reads `shortestWays[j]`, indexed by the edge's position, and writes `shortestWays[First]`, indexed by the 1-based target | the cycle 1 -> 2 -> 3 -> 1 from vertex 1 raises `IndexOutOfRangeException` | `shortestWays[v] + w` compared with and stored into `shortestWays[First - 1]` | high; not executed | `AsWritten.DijkstraAsWrittenOutOfRange` | `ShortestPaths.Dijkstra` |
| GraphLib/MetricOrientedGraph.cs:233-234 | the same relaxation, on a graph where no index goes out of range | the single edge 2 -> 1 from vertex 2 leaves vertex 1 at `double.MaxValue`; its distance is 1 | the same correction | high; not executed | `AsWritten.DijkstraAsWrittenMissesEdge` | `ShortestPaths.Dijkstra` |
| GraphLib/MetricOrientedGraph.cs:241-246 | `FindSaturationTime` runs `Dijkstra` on `SimplifyGraph(graph)` as written | every graph with a valid start vertex raises `NullReferenceException` | Dijkstra's distances in the simplified graph, which equal the graph's | high; not executed | `AsWritten.FindSaturationTimeAsWrittenFaults` | `Saturation.FindSaturationTime` |
