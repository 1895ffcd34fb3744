# Route optimizer: a verified model of the TSP core

This project models the core of a route optimizer. It reads latitude and
longitude points and builds a matrix of integer distances, retrying with a
doubled scale factor while distances round down to zero. It then solves the
travelling salesman problem with a Christofides-style pipeline:

1. a "minimum spanning tree" step;
2. a greedy matching of the odd-degree vertices;
3. an Euler walk over the resulting multigraph;
4. first-seen de-duplication of the walk;
5. repeated 2-opt sweeps.

It finally writes the tour as a KML document.

The model follows the C++ code as written, including its quirks:

- **`mst`** never marks vertices as done. It compares against `(int)key[j]`, which is -1 for an untouched `SIZE_MAX` key. With the non-negative costs `fillMatrix` produces, the "tree" is the star around vertex 0 (`TspGraph.ZeroParentsMakeStar`).
- **`match`** writes -1 through a pointer to a heap copy rather than into the list. So each chosen partner stays available, and pass k joins `odd[k]` to the first cheapest of `odd[k+1..]`. As a result, one odd vertex can be matched twice while another stays unmatched (`TspGraph.MatchCanLeaveOddVertexUnpaired`).
- **`euler`** never clears its `available` stack and stops as soon as that stack is empty. So the walk's outcome depends on the live degree c0 of the start vertex:
  - c0 = 0 gives `[start]`;
  - c0 = 1 gives the empty path;
  - c0 >= 2 walks until the current-path stack is exhausted.
- **`operator()`** is nevertheless correct end to end on the matrices `fillMatrix` produces. The start vertex owns an edge to every other vertex, so the walk reaches all of them. The de-duplicated walk is a permutation of 0..n-1, its reported cost is the closed-tour cost, and no reversal `twoOpt` examines would shorten it (`Tsp.Solve`).

## Modules

| Module | Models |
|---|---|
| `CppInt` | 32-bit `int` and 64-bit `size_t` limits and conversions |
| `Utility` | `removeDuplicates` as an in-place array algorithm, specified by the function `Dedup` |
| `TspTypes` | cost matrix, `Node` records, adjacency lists, `std::reverse` |
| `TspGraph` | `mst`, the odd-degree lambda, `match` |
| `TspEuler` | `euler` |
| `TspTour` | `twoOpt` (on an array, in place), tour cost, the cost lambda |
| `Tsp` | `Tour` (the datatype `Tsp.Tour`; `Tsp.DefaultTour` is the default-constructed value, cost 0 and path `[0]`, tsp.h:27-31), the constructor, `operator()` |
| `Kml` | `removeExt`, and the writer class with its indentation counter, tag stack and output (the output is the string written so far) |
| `RouteMatrix` | `fillMatrix` and the retry loop of `main` |

## Model

| member | source | states |
|---|---|---|
| CppInt.ToSize | kml.h:24-25 | `size_t` arithmetic: the result is below 2^64, congruent to the input modulo 2^64, and equal to it when it already fits |
| CppInt.ToInt32 | tsp.h:70 | `(int)key[j]`: the result is a 32-bit int congruent to the key modulo 2^32, and equal to the key when the key fits |
| CppInt.SizeMaxAsInt | tsp.h:59 | an untouched `SIZE_MAX` key reads as -1 after the cast |
| Utility.FirstIndex | utility.h:14 | the position `std::find` returns: it holds x, and x does not occur before it |
| Utility.Dedup | utility.h:8-22 | the specification of `removeDuplicates`: scanning left to right, an element is kept when it is not already among the kept ones (its properties are the `Dedup*` lemmas below) |
| Utility.RemoveDuplicates | utility.h:8-22 | the prefix up to `newLast` is the first-seen de-duplication of the old contents; the cells after it are untouched |
| Utility.ScanStep | utility.h:14-18 | one more input element: the element read is the input's; skipped when already kept, else copied down to `newLast`, and the scan state holds for one more element |
| Utility.ScanNext | utility.h:13-19 | one iteration of the loop moves the array from the scan state after `current` elements to the state after `current + 1` |
| Utility.DedupMembers | utility.h:13-19 | the kept prefix holds exactly the elements of the input |
| Utility.DedupDistinct | utility.h:14 | the kept prefix has no duplicates |
| Utility.DedupLength | utility.h:11-21 | the kept prefix is never longer than the input |
| Utility.DedupOfDistinct | utility.h:13-19 | a range without duplicates is kept whole |
| Utility.DedupIdempotent | utility.h:8-22 | de-duplicating the result again changes nothing |
| Utility.DedupOrdered | utility.h:13-19 | the kept elements are ordered by first occurrence in the input, by induction over the input |
| Utility.DistinctMultiplicity | utility.h:14 | in a sequence without duplicates every element occurs exactly once |
| Utility.FirstIndexAppend | utility.h:14 | appending does not move the first occurrence of an earlier element |
| Utility.OrderedAppendInput | utility.h:13 | scanning one more element keeps the first occurrences of the kept ones |
| Utility.OrderedAppendBoth | utility.h:14-18 | a newly kept element first occurs after every element kept before it |
| TspTypes.EmptyGraph | tsp.h:58 | `AdjList adjList(n)`: n lists, all empty |
| TspTypes.AddEdge | tsp.h:82-83 | one logical edge u -- v of weight w: the record u -> v appended to u's list, then v -> u appended to v's list; the number of lists is unchanged |
| TspTypes.Reverse | tsp.h:179 | `std::reverse` (its properties are `ReverseAt` and `ReverseMultiset`) |
| TspTypes.ReverseAt | tsp.h:179 | `std::reverse` keeps the length and puts element k at position n-1-k |
| TspTypes.ReverseMultiset | tsp.h:179 | `std::reverse` keeps the multiset of elements |
| TspGraph.FirstMin | tsp.h:66 | `min_element`: the index of a least key, and no earlier key is as small |
| TspGraph.RelaxedKey | tsp.h:70-72 | key j after one relaxation: the cost from `min` (as `size_t`) when it is below `(int)key[j]`, else unchanged |
| TspGraph.RelaxedParent | tsp.h:70-73 | parent j after one relaxation: `min` when the cost from `min` is below `(int)key[j]`, else unchanged |
| TspGraph.MstPass | tsp.h:66-75 | one pass of the first loop: relax every entry against the row of the first least key; parents stay vertices |
| TspGraph.MstPasses | tsp.h:59-76 | the keys and parents after i passes, from key[0] = 0, other keys `SIZE_MAX`, parents 0; parents are always vertices |
| TspGraph.MstParents | tsp.h:64-76 | the parent array after the n passes of the first loop; every parent is a vertex |
| TspGraph.MstPassesStar | tsp.h:62-76 | with a non-negative row 0 every pass picks vertex 0 and relaxes nothing, so keys and parents stay as initialised |
| TspGraph.MstParentsZero | tsp.h:64-76 | with a non-negative row 0 every parent `mst` computes is 0 |
| TspGraph.Relax | tsp.h:68-75 | the inner loop of `mst`: key j and parent j become the cost from `min` and `min` exactly when that cost is below `(int)key[j]`, and are unchanged otherwise |
| TspGraph.StartPassed | tsp.h:59-63 | the arrays as initialised hold the state after no pass |
| TspGraph.MstStep | tsp.h:66-75 | one pass of `min_element` and relaxation moves the arrays from the state after i passes to the state after i + 1 |
| TspGraph.MstKeys | tsp.h:59-76 | the first loop of `mst` leaves the keys and parents after n passes |
| TspGraph.PassedParents | tsp.h:64-76 | after n passes the parent array is `MstParents` |
| TspGraph.TreeGraph | tsp.h:78-84 | the list the second loop of `mst` emits for a parent array: edge i -- parent[i] for i = 1..k, in order |
| TspGraph.TreeEdges | tsp.h:78-84 | the second loop of `mst` emits edge i -- parent[i] for i = 1..n-1, in both lists, in order |
| TspGraph.Mst | tsp.h:56-87 | the list is the tree of the parent array the key loop computes (`MstParents`), and with a non-negative row 0 it is the star around vertex 0 |
| TspGraph.ZeroParentsMakeStar | tsp.h:78-84 | with all parents 0 the emitted list is the star around vertex 0 |
| TspGraph.StarWellFormed | tsp.h:78-84 | the star's records are owned by their list, point into the graph and are live, and vertex 0 lists the spokes 1..k in order |
| TspGraph.AddEdgeEntries | tsp.h:82-83 | one logical edge adds two records |
| TspGraph.AddEdgeExtends | tsp.h:118-119 | adding an edge only appends, and keeps records well formed and live |
| TspGraph.EntriesUpdate | tsp.h:82-83 | replacing one list changes the record count by the change in that list's length |
| TspGraph.EmptyGraphEntries | tsp.h:58 | the initial list holds no records |
| TspGraph.TreeGraphEntries | tsp.h:78-84 | `mst` emits 2(n-1) records |
| TspGraph.OddCount | tsp.h:245-250 | the number of lists of odd length |
| TspGraph.OddCountParity | tsp.h:245-250 | handshake: the number of odd-degree vertices has the parity of the record count |
| TspGraph.TreeOddCountEven | tsp.h:245-250 | the odd-degree list built from the tree has even length |
| TspGraph.OddVertices | tsp.h:245-250 | the lambda lists exactly the vertices of odd degree, in ascending order |
| TspGraph.PartnerCosts | tsp.h:105-109 | the costs from odd[k] to odd[k+1..], in list order |
| TspGraph.NearestPos | tsp.h:105-113 | the position the scan of pass k picks: after k, the first least of `PartnerCosts` |
| TspGraph.NearestPosIsFirstMin | tsp.h:105-113 | the chosen partner is the first of the cheapest remaining candidates |
| TspGraph.MatchStep | tsp.h:95-119 | pass k: the mirrored edge from odd[k] to its nearest partner, weighted by their cost; the number of lists is unchanged |
| TspGraph.Matched | tsp.h:90-123 | the graph after the first k passes of `match` |
| TspGraph.MatchedEntries | tsp.h:118-119 | each pass adds exactly one mirrored pair of records |
| TspGraph.MatchedExtends | tsp.h:118-119 | `match` only appends: every old list is a prefix of the new one, and records stay well formed and live |
| TspGraph.MatchCanLeaveOddVertexUnpaired | tsp.h:115-116 | the partner is cleared only in a heap copy: with odd list [0, 1, 2, 3], vertex 1 is matched twice and vertex 3 never |
| TspGraph.Box.constructor | tsp.h:111 | `std::make_unique<int>(*j)` holds the candidate |
| TspGraph.SkipMatched | tsp.h:96-101 | the skip loop stops at the first entry that is not -1, and everything skipped was -1 |
| TspGraph.FindNearest | tsp.h:102-113 | the scan finds the first cheapest candidate strictly below INT_MAX, with a fresh box holding it, or nothing with `length` still INT_MAX |
| TspGraph.ScanFindsNearest | tsp.h:105-113 | in pass i the scan's pick is `NearestPos` of the original list |
| TspGraph.Cleared | tsp.h:115 | after i passes the working copy has its first i entries at -1 and the rest untouched |
| TspGraph.MatchPass | tsp.h:96-121 | one pass clears one more entry and adds the mirrored edge to the nearest partner |
| TspGraph.MatchNext | tsp.h:94-122 | one pass moves the state after i passes to the state after i + 1 |
| TspGraph.Match | tsp.h:90-123 | the result is the graph after size/2 passes |
| TspEuler.Live | tsp.h:138-145 | the records of a list whose `removed` flag is clear, in list order |
| TspEuler.LiveMembers | tsp.h:138-145 | the scan sees exactly the records whose `removed` flag is clear |
| TspEuler.LiveOfFresh | tsp.h:49 | records start live |
| TspEuler.LiveCountMono | tsp.h:167-173 | flagging records never adds live ones |
| TspEuler.LiveCountDrop | tsp.h:167-169 | flagging a live record lowers the live count |
| TspEuler.LiveTotalUpdate | tsp.h:167-173 | re-flagging one list changes the live total by that list's change |
| TspEuler.MarkTarget | tsp.h:167-173 | only flags are set; exactly the records pointing at the target become removed |
| TspEuler.GraphFlagsStep | tsp.h:167-173 | re-flagging one list keeps the graph a re-flagging of the original |
| TspEuler.RemoveTargets | tsp.h:167-169 | a marking loop computes `MarkTarget` |
| TspEuler.PushAvailable | tsp.h:136-145 | the scan pushes the live records in list order and counts them |
| TspEuler.CoverAfterStep | tsp.h:162-173 | a step keeps every consumed record of the start vertex pointing at a walked vertex |
| TspEuler.PopKeepsCover | tsp.h:149-150 | moving the top of `currPath` to `path` keeps that cover |
| TspEuler.PopKeepsWalked | tsp.h:149-150 | moving the top of `currPath` to `path` keeps the multiset of walked vertices |
| TspEuler.ExhaustedStartCovered | tsp.h:147-156 | once the start vertex is exhausted, each of its neighbours is on the path |
| TspEuler.PopTop | tsp.h:147-155 | pop to `path`; the new top, or the `INT_MIN` sentinel with the start vertex last on the path |
| TspEuler.DrainStep | tsp.h:135-156 | one more scan either finds a live record of the top or pops the top |
| TspEuler.DrainExhausted | tsp.h:135-156 | the inner loop ends with a live record of the top on `available`, or with `currPath` empty and the start vertex exhausted |
| TspEuler.Unwind | tsp.h:135-156 | the inner do-while: when the top has live records nothing is popped and they are all pushed |
| TspEuler.MarkStepFrame | tsp.h:167-173 | the two marking loops only set flags, only in the lists of v1 and v2, and only on records between v1 and v2 |
| TspEuler.MarkStep | tsp.h:167-173 | every record v1 -> v2 and v2 -> v1 is consumed; every other list is unchanged; a newly consumed record of v1 points at v2 and one of v2 at v1; the live total drops |
| TspEuler.Advance | tsp.h:160-175 | the step takes the top record's target, pushes it and pops `available`, then consumes the records between v1 and v2 and changes nothing else in the graph |
| TspEuler.BreakFinishes | tsp.h:158-159 | breaking on the sentinel leaves the documented outcome |
| TspEuler.DrainFinishes | tsp.h:177 | an empty `available` after a step can only follow the first step from a start vertex of live degree 1 |
| TspEuler.StepContinues | tsp.h:160-177 | a step that leaves `available` non-empty keeps the walk's invariant |
| TspEuler.WalkStep | tsp.h:134-177 | one outer pass either finishes with the documented outcome or keeps the invariant and consumes a record |
| TspEuler.Euler | tsp.h:126-181 | c0 = 0 gives `[start]`, c0 = 1 gives `[]`, c0 >= 2 gives a path that starts at `start` and contains every neighbour of `start`; every vertex on the path is a vertex of the graph |
| TspEuler.FinishedReversed | tsp.h:179 | the final reversal puts the start vertex first |
| TspTour.PathCost | tsp.h:260-261 | the sum of the costs between neighbouring vertices (the open path) |
| TspTour.TourCost | tsp.h:259-262 | the open-path cost plus the edge from the last vertex back to the first |
| TspTour.TwoOptMove | tsp.h:209-211 | the tour with positions i..j reversed and the rest in place |
| TspTour.MoveDelta | tsp.h:196-203 | `newDist - bestDist` in the source's three cases: the two edges the reversal adds minus the two it removes |
| TspTour.PathCostConcat | tsp.h:259-262 | joining two paths adds the edge between them |
| TspTour.PathCostReverse | tsp.h:209-211 | on a symmetric matrix a reversed path costs the same |
| TspTour.TwoOptMoveAt | tsp.h:209-211 | the move mirrors positions i..j and keeps the rest |
| TspTour.TwoOptMoveShape | tsp.h:209-211 | the move keeps length and vertex range, with the ends as expected |
| TspTour.TwoOptMovePermutes | tsp.h:209-211 | the move only reorders the tour |
| TspTour.PathCostSplit3 | tsp.h:259-262 | the cost of a path made of three pieces |
| TspTour.ReverseFrontCost | tsp.h:198-199 | reversing a leading piece replaces the edge leaving it |
| TspTour.ReverseBackCost | tsp.h:200-201 | reversing a trailing piece replaces the edge entering it |
| TspTour.ReverseMiddleCost | tsp.h:202-203 | reversing a middle piece replaces the two edges around it |
| TspTour.MiddleMoveCost | tsp.h:202-203 | the open-path cost change of an inner move |
| TspTour.BackMoveCost | tsp.h:200-201 | the open-path cost change of a move ending at the last position |
| TspTour.FrontMoveCost | tsp.h:198-199 | the open-path cost change of a move starting at position 0 |
| TspTour.WholeMoveCost | tsp.h:193-194 | reversing the whole tour keeps the open-path cost |
| TspTour.TwoOptPathCost | tsp.h:196-203 | the open-path cost change of any move |
| TspTour.MoveDeltaCorrect | tsp.h:196-203 | on a symmetric matrix `newDist - bestDist` is exactly the change in closed-tour cost |
| TspTour.PathCostNonNegative | tsp.h:259-262 | with non-negative costs a path costs at least 0 |
| TspTour.TourCostNonNegative | tsp.h:259-262 | with non-negative costs a tour costs at least 0 |
| TspTour.LocalOptimum | tsp.h:185-219 | if no examined move has a negative delta, no examined reversal yields a cheaper tour |
| TspTour.SwapInward | tsp.h:209-211 | the `iter_swap` loop mirrors a[i..j] in place and leaves the rest |
| TspTour.ReverseRange | tsp.h:209-211 | the array becomes the 2-opt move of its old contents |
| TspTour.ExamineStep | tsp.h:193-214 | the state after pair (i, j): the corner pair and pairs with a non-negative delta change nothing; an improving pair reverses tour[i..j], adds the delta to `bestDist` and sets `repeat`; the tour keeps its length and vertex range, `bestDist` never rises, and `repeat` is set exactly when it was or `bestDist` fell |
| TspTour.RowSwept | tsp.h:191-215 | the state after pairs (i, i+1) .. (i, j-1) of one row, with the same guarantees as one step |
| TspTour.Swept | tsp.h:187-216 | the state after rows 0 .. i-1 from the input tour and `bestDist`; `repeat` is set exactly when `bestDist` fell, and otherwise the tour is the input tour |
| TspTour.ExamineStepPermutes | tsp.h:209-211 | examining a pair only reorders the tour |
| TspTour.ExamineStepCost | tsp.h:196-213 | on a symmetric matrix, `bestDist` falls by exactly what the tour cost falls in one step |
| TspTour.RowSweptUnchanged | tsp.h:191-215 | a row that leaves `bestDist` alone saw no pair with a negative delta |
| TspTour.RowsCheckedNext | tsp.h:189-216 | one more unchanged row extends the pairs known to have a non-negative delta |
| TspTour.SweptUnchanged | tsp.h:187-216 | a sweep that leaves `bestDist` alone saw no pair with a negative delta in the rows it went through |
| TspTour.Examine | tsp.h:193-214 | the arrays and values after pair (i, j) are `ExamineStep` of the old ones: an improving pair reverses tour[i..j] in place, adds the delta to `bestDist` and sets `repeat`, any other pair changes nothing; the tour is permuted and, on a symmetric matrix, `bestDist` tracks its cost |
| TspTour.SweepRow | tsp.h:191-215 | the inner loop leaves the state `RowSwept` gives for the whole row, a permutation of the old tour, with `bestDist` tracking its cost on a symmetric matrix |
| TspTour.TwoOpt | tsp.h:185-219 | the tour and the returned flag are those of `Swept` over all rows; the tour is permuted; an unchanged tour admits no improving move; on a symmetric matrix `true` is returned exactly when the tour got cheaper |
| TspTour.Cost | tsp.h:259-262 | the lambda's sum; with n = size it is the closed-tour cost |
| Tsp.NewSolver | tsp.h:223-230 | a solver exists exactly for 4 <= n <= 2000 |
| Tsp.PermutationOfRange | tsp.h:256 | a duplicate-free list whose elements are exactly 0..n-1 is a permutation of 0..n-1 |
| Tsp.StartSeesAll | tsp.h:242-253 | after `mst` and `match`, vertex 0 owns live records towards 1..n-1 in order |
| Tsp.MatchStar | tsp.h:245-250 | the odd-degree lambda and `match` on the star: vertex 0 keeps a live record towards every other vertex |
| Tsp.Multigraph | tsp.h:242-250 | the multigraph is well formed, all live, and vertex 0 sees every other vertex |
| Tsp.WalkCoversAll | tsp.h:253 | a walk from vertex 0 that reaches every neighbour of 0, when 0 sees every vertex, holds exactly the vertices 0..n-1 |
| Tsp.Shortcut | tsp.h:253-256 | the de-duplicated walk is a permutation of 0..n-1 |
| Tsp.Improve | tsp.h:264 | repeating `twoOpt` ends, on a permutation of the tour that is 2-opt optimal |
| Tsp.Solve | tsp.h:233-268 | the default tour on a wrong-size matrix; otherwise a permutation of 0..n-1 whose cost is the closed-tour cost, 2-opt optimal |
| Kml.LastMark | kml.h:17 | `find_last_of("\\/.")`: a mark at the result and none after it, or -1 for `npos` |
| Kml.RemoveExt | kml.h:13-22 | the result is a prefix; "." and ".." are kept; the name changes exactly when some '.' has no separator or dot after it, and then the cut is at that last '.' |
| Kml.OutputName | kml.h:45-46 | the name `open` writes to: the extension replaced by `.kml` |
| Kml.OutputNameBase | kml.h:45-46 | stripping the extension of the `.kml` output name gives back the base name |
| Kml.Spaces | kml.h:27 | `indent` writes 2k spaces |
| Kml.CloseLine | kml.h:90-92 | the line `tagClose` writes: the current indentation, then `</tag>` |
| Kml.ClosingTags | kml.h:66-67 | what `end`'s loop writes: the closing lines of the stack, most recent tag first, each at the indentation in force before its `tagClose` |
| Kml.ToSizeEven | kml.h:24-25 | `size_t` steps of two keep the counter even |
| Kml.KmlWriter.constructor | kml.h:8-11 | counter 0, no open tags, nothing written |
| Kml.KmlWriter.IncIndent | kml.h:24 | the counter grows by 2 modulo 2^64 |
| Kml.KmlWriter.DecIndent | kml.h:25 | the counter drops by 2 modulo 2^64 |
| Kml.KmlWriter.Indent | kml.h:27 | one pair of spaces per 2 units of the counter |
| Kml.KmlWriter.TagOpen | kml.h:72-78 | push the tag, write `<tag>` at the new indentation, stay balanced |
| Kml.KmlWriter.TagStart | kml.h:96-102 | like `tagOpen`, but writes `<tag ` |
| Kml.KmlWriter.TagClose | kml.h:88-94 | writes `</top>` at the current indentation, pops, steps back, stays balanced |
| Kml.KmlWriter.End | kml.h:64-70 | closes all tags most recent first, then writes `</kml>`; a balanced writer ends at indentation 0 |
| Kml.OpenThenClose | kml.h:72-94 | `tagClose` undoes `tagOpen`: counter and stack restored, both lines at the same indentation |
| RouteMatrix.FillMatrix | main.cpp:39-79 | stops at the first non-positive distance: FAIL for identical points, else doubles the factor and returns RETRY, or FAIL above 64; writes exactly the cells it scanned, symmetric with a zero diagonal |
| RouteMatrix.Pow2 | main.cpp:61 | the factor after k doublings of 1.0 |
| RouteMatrix.Pow2Exceeds | main.cpp:59-66 | a factor at most 64 means at most six doublings |
| RouteMatrix.Pow2Grows | main.cpp:61 | doubling only grows the factor |
| RouteMatrix.BuildMatrix | main.cpp:106-112 | the loop ends after at most six retries; on SUCCESS the factor is 2^retries and the matrix is symmetric, zero on the diagonal and positive elsewhere |
| RouteMatrix.Entry | main.cpp:70-74 | the value the scan stores in a cell: 0 on the diagonal, else the distance of the pair |
| RouteMatrix.Filled | main.cpp:70-74 | the filled matrix as a value: an n-by-n matrix of `Entry` values |
| RouteMatrix.FilledIsCostMatrix | main.cpp:70-74 | a successful fill with distances below INT_MAX is a valid solver input |

## Left out

- `navigation.h` (rhumb-line distance) is not part of this model. The scaled, truncated distance `(int)(rhumbline(...) * scaleFactor)` is the parameter `dist`, and the coordinate-equality test is the parameter `samePoint`.
- Floating point: `scaleFactor` only ever doubles from 1.0, so it is modelled as the whole number `scale`.
- `file.h`, `main`'s printing and the timer are I/O and are left out. `KML::open`'s stream handling and the destructor are left out too. `open` is reduced to the name it builds (`Kml.OutputName`). Output goes to a string instead of a file.
- `tagField`, `tagEnd`, `tagLine` and `write` are stream writers like `tagOpen`, but they lie outside the indentation and tag-stack core modelled here.
- The constructor's `exit(-1)` is the `None` result of `Tsp.NewSolver`.
- Cost sums in `twoOpt` and the cost lambda are unbounded integers. 32-bit overflow of very long tours is not modelled.
- Graphs are passed by reference in the source and are values here. `mst`, `match` and the marking steps of `euler` return the new graph. `TspEuler.Euler` returns only the path, so its writes of the `removed` flags into the caller's graph (tsp.h:167-173) are not passed back. `operator()` never reads `mstAdjList` again after the call at tsp.h:253, so nothing observable is lost.
- The messages written to `std::cerr` are left out: "Invalid number of vertices." before the constructor's exit (tsp.h:227), and the duplicate-coordinates and scaling-failure messages of `fillMatrix` (main.cpp:55, main.cpp:64). Only the outcomes they accompany are modelled (`None`, `FAIL`, `RETRY`).
- TspTour.TwoOpt: requires a non-empty tour. With an empty one, `tour.size() - 1` wraps, and the source only spins.
- Tsp.Solve: requires a symmetric matrix of non-negative costs below INT_MAX whenever its size matches. That is what `fillMatrix` produces (`RouteMatrix.FilledIsCostMatrix`). Other matrices are not modelled.
- TspGraph.Match: requires every cost to be below INT_MAX (negative costs are allowed). With a cost of INT_MAX, `nearestVertPtr` could stay null and the source would dereference it.
- Kml.KmlWriter.TagClose: requires an open tag, because `tagStack.top()` on an empty stack is undefined.
- Kml.KmlWriter.Indent: requires an even counter, which every operation keeps. An odd counter makes the source loop wrap around.
- TspEuler.Euler: does not state that every vertex pushed on `currPath` reaches the path. The ghost output `visited` is tied only to the start vertex and to the path's multiset, which `visited := path` also meets, so it tells a caller nothing more.
- TspEuler.Euler: when the start vertex has two or more live records, the contract promises the start vertex first and every neighbour of it on the path. It does not promise that every edge is walked.
