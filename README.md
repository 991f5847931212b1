# Route search of the TSP visualiser, in Dafny

This project models the route-search engine of `path_search.py`, the module behind the interactive
travelling-salesman visualisation. It covers each part of the engine:

- input validation (`_coerce_points`);
- the pure-Python distance table (`_distance_matrix`);
- tour length (`_route_length`);
- the exact solver (`_solve_bruteforce`);
- the nearest-neighbour construction (`_solve_nearest_neighbor_gen`, `_solve_nearest_neighbor`);
- first-improvement 2-opt (`_two_opt_gen`, `_two_opt`);
- Prim's algorithm (`compute_mst`);
- the two entry points that pick a strategy and re-order the points (`find_path`, `find_path_step`).

## How the model is built

One Dafny module per part of the engine:

- `common.dfy`, module `Common`: errors, results, the time budget, `range`, permutations of indices, reversal.
- `points.dfy`, module `Points`: `_coerce_points`; re-indexing a point list by a route.
- `distances.dfy`, module `Distances`: `_distance_matrix` (fallback loop).
- `tours.dfy`, module `Tours`: `_route_length`; the running minimum over candidates.
- `bruteforce.dfy`, module `Bruteforce`: `_solve_bruteforce` and `itertools.permutations`.
- `nearest.dfy`, module `Nearest`: `_solve_nearest_neighbor_gen` and `_solve_nearest_neighbor`.
- `two_opt.dfy`, module `LocalSearch`: `_two_opt_gen` and `_two_opt`.
- `mst.dfy`, module `SpanningTree`: `compute_mst`.
- `path_search.dfy`, module `PathSearch`: `find_path`, `find_path_step`, and `compute_mst` on raw points.

Modelling choices:

- **Numbers.** Distances are exact reals. The Euclidean distance `math.hypot` is a parameter `metric`. Its one assumed property is that it is never negative. The `1e-12` margin of 2-opt is the real constant `Eps`.
- **Routes.** A route is a `seq<nat>`. `IsPermutation(r, n)` says that `r` holds each of `0 .. n-1` exactly once.
- **2-opt.** The search works in place on an `array<nat>`. `ReverseSlice` performs `route[i : k + 1] = reversed(...)`. The functions `Probe`, `PassAt`, `PassScan`, `Search` and `TwoOptRun` state the scan as the generator runs it: the pairs `(i, k)` in loop order, each probed on the route as it stands after every earlier reversal, with the clock checked before each row and each pair. `TwoOptRun` therefore determines the routes yielded, the route returned and whether the budget stopped the search, and the loops of `TwoOptGen` are proved to compute exactly that.
- **Prim's algorithm.** It updates the arrays `in_mst`, `min_dist` and `parent` in place. `float("inf")` is the constructor `Infinity` of `Extended`.
- **Generators.** A generator is a method that returns the list of values it yields, together with the value it returns.
- **Time budget.** A search sees the datatype `Budget`. `Checks(k)` means that the k-th clock check of that search (counting from 0) and every later one find the budget spent. `Unlimited` stands for `time_budget_s=None`. Both generators take their own `start_time` (path_search.py:127 and 184), so the entry points take a `TimeBudget`: `NoLimit`, or `Limit(nearestChecks, twoOptChecks)` giving each of the two searches its own number of checks that come in under the budget. As long as elapsed time only grows, every way the clock can stop either search is one of these values.
- **Strategies.** A strategy string resolves to a `Plan`.
- **Errors.** Exceptions are `Failure` values of `Result`:
  - `InvalidPoint` is the `ValueError` for an element that is not a pair;
  - `NotAFloat` is raised when `float()` refuses a coordinate;
  - `UnknownStrategy` is the `ValueError` of `find_path`;
  - `UnboundRoute` is the `UnboundLocalError` of `find_path_step`.
- **Ties.** `min(unvisited, key=...)` scans a `set` of small non-negative ints. CPython iterates such a set in increasing order, and `min` keeps the first of equal keys. So ties go to the smaller index. `NoWorse` states this order.
- **Closed tours in 2-opt.** For a closed tour, `_two_opt_gen` reads `route[(k + 1) % n]`. `Successor` models that index, and `SuccessorIndex` proves it equal to that read.

## What is proved

- `Coerced`: validation succeeds exactly when every element is a pair of numbers. Otherwise it fails with the error of the first bad element. The result keeps the length and converts coordinate by coordinate.
- `TableOf`: the distance table is square, symmetric and zero on the diagonal, and holds the metric above it. `DistanceMatrix` is proved to fill exactly that table.
- `SolveBruteforce`:
  - it returns a shortest route among all permutations, and the first shortest in `itertools.permutations` order;
  - for a closed tour that route starts at 0;
  - it returns the identity below two points;
  - the closed-tour reduction loses nothing: `RotateToZero` and `CandidateForEveryTour`;
  - the enumeration is complete: `PermutationsComplete`.
- `GreedyRoute`:
  - every nearest-neighbour candidate is a permutation that starts at its start index;
  - each next stop is a nearest one among the stops not yet visited;
  - the generator yields one candidate per start tried, in order;
  - `GreedyUnique`: the greedy tour from a start is unique.
- `ReversalDelta`, `ImprovesIffShorter` and `ImprovingReversal`: a 2-opt reversal changes the tour length by `after - before`, so the test `after + 1e-12 < before` holds exactly when the reversal shortens the tour by more than `Eps`.
- `TwoOptGen` computes exactly `TwoOptRun`, the first-improvement scan in loop order. Of that run (`TwoOptRunFacts`):
  - every yielded route is one improving reversal after the previous one, so the j-th is shorter than the start by more than `(j + 1) * Eps`, and each keeps the stops and the first stop;
  - the returned route is the last yielded one, or the start when nothing was yielded;
  - with no budget, the search ends at a local optimum, where no scanned pair would trigger a reversal;
  - a local optimum as input, or a route shorter than 4, yields nothing;
  - the search terminates because the tour length is bounded below.
- `PrimMst` returns n-1 edges in the order Prim's algorithm adds them:
  - each edge joins the tree to a new vertex;
  - each edge is a lightest edge leaving the tree at that moment (`LightestCut`);
  - every vertex ends in the tree, which is rooted at 0 (`PrimOrderSpans`).
- `FindPath` and `FindPathStep`:
  - the validation errors and the trivial case are handled;
  - `auto` becomes the exact solver iff n <= 10;
  - every known strategy returns the points re-ordered by the one route the strategy determines (`StrategyRouteUnique`): the first shortest candidate, the greedy tour of the last start tried, or the 2-opt run from the identity or from that greedy tour;
  - every frame shown is a re-ordering of the points by the routes the strategy goes through, and the result is the last frame;
  - `StepEndsWithFindPath`: whenever the step search shows a frame, the last one is what `find_path` returns for the same arguments and budget;
  - an unknown strategy fails.

## Code and documentation

The model follows the code wherever the code and the module's own documentation or docstrings disagree:

1. **`_solve_nearest_neighbor` returns the last start's tour.** It (path_search.py:166-170) keeps the last candidate the generator yields and drops the generator's return value (path_search.py:157).
   - So `find_path(strategy="nearest")` returns the greedy tour from the last start tried, not the best of all starts as the heuristic is described.
   - `Nearest.NearestNeighbor` models the code as written, and `FindPath` uses it.
   - `Nearest.LastStartIsNotBest` exhibits an open three-point table on which the result has length 4 while the tour from start 0 has length 3.
   - `Nearest.NearestNeighborBest` takes the generator's own return value and proves that it is a shortest of the tours tried.
2. **`find_path_step` raises `UnboundLocalError` for an unknown strategy.** It falls through to `return route` (path_search.py:297) with `route` unbound, after yielding nothing. That raises `UnboundLocalError`, where `find_path` raises `ValueError` for the same argument (path_search.py:410).
   - `FindPathStep` returns `Failure(UnboundRoute)` there, as written.
   - `FindPathStepIntended` raises the `ValueError` of `find_path` instead, and `IntendedStepAgrees` proves that it then ends exactly as `find_path` does for every strategy.
3. **Step-mode `two_opt` can yield nothing.** When no reversal improves the identity route, the `two_opt` branch yields no frame (path_search.py:273-279). That disagrees with the docstring "Yield intermediate paths for visualization" (path_search.py:245) and with the consumer, which takes the last yielded path as the result (game_screen.py:271) and so keeps showing the previous path.
   - `StepTwoOptOnly` states this as written: the frames are then empty.
   - `UniformTableYieldsNothing` shows that it happens: when all stops are equally far apart, 2-opt from the input order yields nothing, for every number of stops, tour kind and budget.
   - `StepTwoOptOnlyIntended` shows the returned route when nothing was yielded, so its last frame is always the result.
4. **The budget is checked before the first start.** The nearest-neighbour generator checks the clock before every start, the first one included (path_search.py:135-137). A budget already spent therefore tries no start, and `_solve_nearest_neighbor` returns `list(range(n))`, so no heuristic runs at all. That disagrees with `find_path`'s description of the budget as one for "heuristic improvements" (path_search.py:369), which leaves the construction itself alone.
   - `Nearest.NearestNeighborGen` models the clock check as written, and `FindPath` uses it.
   - `Nearest.NearestNeighborGenIntended` skips the first check (`Common.Later`), and so always tries at least one start and never fewer than the code does.

## Model

| member | source | states |
|---|---|---|
| Common.Range | path_search.py:397 | `list(range(lo, hi))` has `hi - lo` elements, the i-th being `lo + i` |
| Common.NearestBudget | path_search.py:127-137 | the nearest-neighbour search is unlimited iff no budget is given, and otherwise its c-th clock check finds the budget spent iff c reaches its own count |
| Common.TwoOptBudget | path_search.py:184-201 | 2-opt is unlimited iff no budget is given, and otherwise its c-th clock check finds the budget spent iff c reaches its own count |
| Common.Later | path_search.py:135-137 | skipping the first clock check: the first check never finds the budget spent, and check c + 1 does iff check c of the original does |
| Points.CoerceOne | path_search.py:33-37 | an element converts iff it is a length-2 sequence of numbers; a wrong shape raises the "pairs" `ValueError`; a pair with a coordinate `float()` refuses raises that error; a converted element is the pair of its two coordinates |
| Points.Coerced | path_search.py:31-38 | validation succeeds iff every element converts, keeps the length and converts element by element; a failure carries the error of an element all of whose predecessors convert |
| Points.CoercePoints | path_search.py:31-38 | the conversion loop returns exactly `Coerced(points)`, raising at the first element it cannot convert |
| Points.Reindex | path_search.py:386 | `[points_list[i] for i in route]` has one point per route entry, the i-th being the point at index `route[i]` |
| Points.ReindexIsPermutation | path_search.py:386 | re-indexing the points by a permutation of their indices gives a list of the same length holding the same points |
| Points.ReindexIdentity | path_search.py:267-271 | re-indexing by `list(range(n))` gives the points unchanged (the result when nothing was yielded) |
| Points.ReindexSameIndices | path_search.py:386 | two routes holding the same indices re-index to lists holding the same points |
| Distances.TableOf | path_search.py:60-68 | the table is n×n, symmetric, zero on the diagonal and holds the metric of `points[i], points[j]` at `i < j`; a non-negative metric makes it a distance table |
| Distances.DistanceMatrix | path_search.py:60-68 | the nested fill loop produces exactly `TableOf(points, metric)` |
| Tours.PathLength | path_search.py:80-82 | the summed consecutive distances of a route are never negative on a non-negative table |
| Tours.RouteLength | path_search.py:71-85 | a route of fewer than two stops has length 0; an open route has the sum of its consecutive distances; the length is never negative on a non-negative table |
| Tours.PathLengthAppend | path_search.py:80-82 | the length of two joined paths is the sum of their lengths plus the joining edge |
| Tours.PathLengthReversed | path_search.py:80-82 | on a symmetric table a reversed path has the same length |
| Tours.RotationKeepsClosedLength | path_search.py:97-99 | rotating a closed tour keeps its length |
| Tours.FirstMinimumSingle | path_search.py:100-107 | a single candidate is the first minimum |
| Tours.FirstMinimumAppend | path_search.py:105-107 | the running minimum: a strictly shorter new candidate becomes the best, an equally long one does not |
| Tours.FirstMinimumUnique | path_search.py:100-107 | the first shortest candidate is unique: no other position is also a first minimum |
| Tours.FirstMinimum | path_search.py:100-107 | the loop returns the first candidate of least length |
| Bruteforce.Permutations | path_search.py:111 | every enumerated route is a re-ordering of the input |
| Bruteforce.PermutationsComplete | path_search.py:111 | every re-ordering of the input is enumerated |
| Bruteforce.Candidates | path_search.py:99-103 | every candidate is a permutation of `0..n-1`, and every closed candidate starts with 0 |
| Bruteforce.RotateToZero | path_search.py:97-99 | every closed tour has a rotation starting at 0 with the same length |
| Bruteforce.ClosedCandidate | path_search.py:99-103 | every permutation starting with 0 is a closed candidate |
| Bruteforce.CandidateForEveryTour | path_search.py:97-113 | for every permutation there is a candidate of the same length |
| Bruteforce.SolveBruteforce | path_search.py:88-114 | identity below two stops; otherwise a permutation (starting at 0 when closed) that is the first shortest candidate in enumeration order and no longer than any permutation |
| Nearest.StartsTried | path_search.py:135-137 | the starts tried are those before the first clock check that finds the budget spent, at most n |
| Nearest.ClosestUnvisited | path_search.py:144 | the chosen stop is unvisited and no farther than any unvisited stop, the smaller index winning ties |
| Nearest.GreedyExtend | path_search.py:144-147 | appending the closest unvisited stop keeps the route greedy so far |
| Nearest.BuildingStart | path_search.py:139-142 | the inner loop's state holds after `unvisited.remove(start)`, `route = [start]` |
| Nearest.BuildingStep | path_search.py:144-147 | one iteration of the inner loop keeps its state |
| Nearest.BuildingDone | path_search.py:143 | when `unvisited` is empty the route is the greedy tour |
| Nearest.GreedyRoute | path_search.py:139-147 | the inner loop builds a permutation starting at `start` whose every next stop is a nearest unvisited one |
| Nearest.GenStep | path_search.py:149-155 | one start yields its greedy tour and updates the running best when it is strictly shorter |
| Nearest.NearestNeighborGen | path_search.py:117-157 | no yield below two stops; one greedy tour per start tried, in order; the return value is the first shortest of them, or `list(range(n))` |
| Nearest.NearestNeighbor | path_search.py:160-170 | the result is the greedy tour from the last start tried, or `list(range(n))` when none was tried |
| Nearest.NearestNeighborBest | path_search.py:157 | the generator's return value is a tour tried and no longer than any greedy tour from a start tried |
| Nearest.NearestNeighborGenIntended | path_search.py:135-137 | with the first clock check skipped, at least one start is always tried and never fewer than the code tries; each yielded tour is the greedy one and the return value the first shortest |
| Nearest.NoWorseAntisymmetric | path_search.py:144 | of two distinct stops at most one is the choice of `min` over the other |
| Nearest.GreedyPrefix | path_search.py:143-147 | two greedy tours from the same start agree on every prefix |
| Nearest.GreedyNextAgrees | path_search.py:144 | greedy tours that agree so far choose the same next stop |
| Nearest.GreedyUnique | path_search.py:139-147 | the greedy tour from a start is unique |
| Nearest.LastStartTableExists | path_search.py:166-170 | a symmetric non-negative three-stop table exists on which the last start is worst |
| Nearest.LastStartTableFirstTour | path_search.py:139-147 | on that table the greedy tour from 0 is 0-2-1 |
| Nearest.LastStartTableLastTour | path_search.py:139-147 | on that table the greedy tour from 2 is 2-0-1 |
| Nearest.LastStartTableLengths | path_search.py:77-82 | those open tours have lengths 3 and 4 |
| Nearest.LastStartIsNotBest | path_search.py:166-170 | with no budget the tour `_solve_nearest_neighbor` returns (from the last start) has length 4 while the tour from start 0 has length 3 |
| LocalSearch.Reverse | path_search.py:214 | a reversal keeps the positions outside `i..k` and mirrors those inside |
| LocalSearch.ReverseMultiset | path_search.py:214 | a reversal only re-orders the route |
| LocalSearch.ReverseValid | path_search.py:214 | a reversal keeps the route's indices inside the table |
| LocalSearch.SuccessorIndex | path_search.py:206 | the stop after position k is `route[(k + 1) % n]` on a closed tour and `route[k + 1]` on an open one |
| LocalSearch.Before | path_search.py:211 | the two edges the exchange removes weigh at least 0 on a non-negative table |
| LocalSearch.After | path_search.py:212 | the two edges the exchange adds weigh at least 0 on a non-negative table |
| LocalSearch.ImprovesIffShorter | path_search.py:211-213 | the test `after + 1e-12 < before` (`Improves`) holds iff the reversal makes the tour shorter by more than `Eps` |
| LocalSearch.ChainStep | path_search.py:213-216 | every yielded route is one improving reversal of the route before it |
| LocalSearch.PathLengthJoin3 | path_search.py:80-82 | the length of three joined paths splits at the two joining edges |
| LocalSearch.PathLengthSwapMiddle | path_search.py:211-212 | replacing the middle path by one as long with swapped ends swaps the two joining edges |
| LocalSearch.PathLengthReverseMiddle | path_search.py:211-214 | reversing an inner slice replaces exactly the edges `before` by the edges `after` |
| LocalSearch.PathLengthReverseTail | path_search.py:206-214 | reversing the tail of a closed tour replaces the edge into it and the closing edge |
| LocalSearch.ReversalDeltaInner | path_search.py:203-214 | for an inner slice, the new tour length is the old one minus `before` plus `after` |
| LocalSearch.ReversalDeltaWrap | path_search.py:203-214 | the same when the slice ends at the last stop of a closed tour |
| LocalSearch.ReversalDelta | path_search.py:203-214 | every scanned reversal changes the tour length by `after - before` |
| LocalSearch.ImprovingReversal | path_search.py:211-216 | an applied reversal keeps a permutation, keeps the first stop and shortens the tour by more than `Eps` |
| LocalSearch.ChainElement | path_search.py:216 | the j-th yielded route is shorter than the start by more than `(j + 1) * Eps` and keeps its stops and first stop |
| LocalSearch.StepShortens | path_search.py:211-216 | one improving reversal keeps the stops and the first stop and shortens the tour by more than `Eps` |
| LocalSearch.TraceKeeps | path_search.py:213-216 | the route the yielded copies end at holds the stops of the initial route with the same first stop |
| LocalSearch.ChainShortens | path_search.py:216 | every yielded route is such a re-ordering, shorter by that margin |
| LocalSearch.SmallRoutesOptimal | path_search.py:180-182 | below four stops no scanned pair can trigger a reversal |
| LocalSearch.MeasureDecreases | path_search.py:185-219 | an improvement lowers a natural-number measure, so the passes end |
| LocalSearch.ReverseSlice | path_search.py:214 | the in-place slice reversal leaves the array equal to `Reverse` of its old contents |
| LocalSearch.ChainAppend | path_search.py:216 | a step from the last yielded route extends the chain |
| LocalSearch.ScannedNext | path_search.py:199-213 | one more non-improving pair extends the scanned prefix |
| LocalSearch.ScannedRow | path_search.py:197-199 | finishing the `k` loop moves the scan to the next `i` |
| LocalSearch.ScannedRowStart | path_search.py:197-199 | no pair of row `i` comes before `(i, i + 1)` |
| LocalSearch.ScannedAll | path_search.py:187-219 | a pass that scans every pair without improving ends at a local optimum |
| LocalSearch.Probe | path_search.py:200-216 | one pair of the `k` loop leaves a route over the same table with the same length |
| LocalSearch.PassAt | path_search.py:193-216 | the rest of a pass from pair `(i, k)` leaves a route over the same table with the same length |
| LocalSearch.PassScan | path_search.py:193-216 | the rest of a pass from row `i` leaves a route over the same table with the same length |
| LocalSearch.Search | path_search.py:186-219 | the `while improved` loop leaves a route over the same table with the same length |
| LocalSearch.TwoOptRun | path_search.py:173-221 | the generator's returned route is over the same table with the same length as its input |
| LocalSearch.ProbeAdvances | path_search.py:197-216 | one pair changes the route only by setting `improved`, which stays set; it never lengthens the tour, and shortens it by more than `Eps` when it sets `improved`; without a budget it never stops the scan; the pass then goes on at `(i, k + 1)` on the route as it then stands |
| LocalSearch.PassAtAdvances | path_search.py:193-216 | the same for the rest of a pass from pair `(i, k)` |
| LocalSearch.PassAtAdvancesProbe | path_search.py:197-216 | the same when, within a row and under the budget, the pass probes `(i, k)` first |
| LocalSearch.PassScanAdvances | path_search.py:193-216 | the same for the rest of a pass from row `i` |
| LocalSearch.PassShortens | path_search.py:186-218 | a pass that reverses something lowers the termination measure |
| LocalSearch.SearchKeeps | path_search.py:186-219 | the passes never lengthen the tour, and without a budget never stop |
| LocalSearch.ProbeChain | path_search.py:197-216 | a copy yielded by one pair is one improving reversal after the last route, and the route stands at it; the pass then goes on at `(i, k + 1)` |
| LocalSearch.PassAtChain | path_search.py:193-216 | every copy yielded by the rest of a pass from pair `(i, k)` is one improving reversal after the previous, ending at the route |
| LocalSearch.PassAtChainProbe | path_search.py:197-216 | the same when, within a row and under the budget, the pass probes `(i, k)` first |
| LocalSearch.PassScanChain | path_search.py:193-216 | the same for the rest of a pass from row `i` |
| LocalSearch.SearchChain | path_search.py:186-219 | the same for the whole `while improved` loop |
| LocalSearch.ProbeScanned | path_search.py:197-215 | a pair either sets `improved` or extends the scanned prefix of the route by one pair without improving; the pass then goes on at `(i, k + 1)` |
| LocalSearch.PassScanRow | path_search.py:193-199 | before the last row and under the budget, the pass counts a clock check and starts the row at `(i, i + 1)` |
| LocalSearch.PassAtKeepsImproved | path_search.py:213-215 | once a pass has reversed something it stays marked as improved |
| LocalSearch.PassAtScanned | path_search.py:193-218 | the rest of a pass from a point where every earlier pair was scanned without improving ends at a local optimum unless it improves or is stopped |
| LocalSearch.PassAtScannedProbe | path_search.py:197-218 | the same when the pass probes `(i, k)` first, `improved` still clear |
| LocalSearch.PassScanScanned | path_search.py:193-218 | the same from the start of row `i` |
| LocalSearch.SearchOptimal | path_search.py:186-219 | unless the budget stops it, the search ends at a local optimum |
| LocalSearch.PassAtAtOptimum | path_search.py:193-216 | on a local optimum the rest of a pass changes nothing and yields nothing |
| LocalSearch.PassScanAtOptimum | path_search.py:193-216 | the same from row `i` |
| LocalSearch.TwoOptRunFacts | path_search.py:173-221 | the yielded routes are a chain of improving reversals ending at the returned route; the returned route keeps the stops and first stop and is no longer; unless stopped it is a local optimum; a local optimum or a route below four stops yields nothing; without a budget the search is never stopped |
| LocalSearch.TwoOptRouteFacts | path_search.py:224-235 | the last yielded route is the one returned, holding the same stops with the same first stop, no longer, a local optimum without a budget |
| LocalSearch.UniformTable | path_search.py:60-68 | n stops all one unit apart form a distance table |
| LocalSearch.UniformTableYieldsNothing | path_search.py:273-279 | on that table the input order is a local optimum and 2-opt from it yields nothing, for any n, tour kind and budget |
| LocalSearch.TryMove | path_search.py:203-215 | the reversal is applied iff `after + 1e-12 < before`, and the route is otherwise unchanged |
| LocalSearch.ProbePair | path_search.py:200-216 | the loop body for one pair leaves the route, check count, flag and yielded copies that `Probe` gives |
| LocalSearch.ScanRow | path_search.py:197-216 | the `k` loop for one row either stops where `PassAt` stops or leaves a state from which the rest of the pass gives what `PassAt` gives |
| LocalSearch.Pass | path_search.py:193-216 | one pass of the `for i` loop leaves the route, check count, flag, stop and yielded copies that `PassScan` gives |
| LocalSearch.TwoOptGen | path_search.py:173-221 | the generator yields exactly the routes of `TwoOptRun`, returns its route and stops early exactly when it does |
| LocalSearch.TwoOpt | path_search.py:224-235 | the result is the route `TwoOptRun` returns: a permutation of the input, no longer, with the same first stop, a local optimum when no budget is given |
| SpanningTree.GrownStep | path_search.py:336-340 | adding an edge adds its new vertex to the tree |
| SpanningTree.ClosestOutside | path_search.py:325-331 | the vertex chosen is outside the tree with least finite `min_dist`, the first such; -1 when every outside vertex is at infinity |
| SpanningTree.Relax | path_search.py:343-346 | every outside vertex with a closer distance to `u` gets that distance and parent `u`, and nothing else changes |
| SpanningTree.RelaxFirst | path_search.py:343-346 | after relaxing from vertex 0, every label is the distance to the tree {0} |
| SpanningTree.RelaxNext | path_search.py:343-346 | after relaxing from `u`, the labels are the least distances to the tree with `u` added |
| SpanningTree.LightestCut | path_search.py:328-340 | the edge from a closest outside vertex's parent is a lightest edge leaving the tree (the cut property) |
| SpanningTree.AddEdge | path_search.py:339-340 | appending `(parent[u], u)` keeps the Prim order and adds `u` to the tree |
| SpanningTree.ParentOfClosest | path_search.py:339 | the closest vertex has no parent only on the first iteration |
| SpanningTree.JoinFirst | path_search.py:333-346 | the first iteration adds vertex 0 and no edge |
| SpanningTree.JoinNext | path_search.py:333-346 | a later iteration adds one vertex and one edge |
| SpanningTree.Join | path_search.py:333-346 | each iteration keeps the loop state, adding an edge iff the vertex has a parent |
| SpanningTree.Grow | path_search.py:323-346 | one iteration of the outer loop keeps the loop state with one more vertex in the tree |
| SpanningTree.GrownSize | path_search.py:336-340 | with distinct new vertices the tree after j edges has j + 1 vertices |
| SpanningTree.PrimOrderSpans | path_search.py:321-348 | n-1 edges in Prim order have distinct targets other than 0 and bring every vertex into the tree: a spanning tree rooted at 0 |
| SpanningTree.PrimDone | path_search.py:323-348 | after n iterations there are n-1 edges in Prim order spanning every vertex |
| SpanningTree.PrimMst | path_search.py:313-348 | no edge for an empty table; otherwise n-1 edges, each a lightest edge from the tree to a new vertex, together spanning every vertex |
| PathSearch.Resolve | path_search.py:379-380 | a strategy has a branch iff it is one of the five names; `auto` is the exact solver iff n <= 10, else nearest neighbour with 2-opt |
| PathSearch.NearestResultUnique | path_search.py:160-170 | `_solve_nearest_neighbor` has one possible result for a table and budget |
| PathSearch.StrategyRouteUnique | path_search.py:384-408 | each known strategy determines its route: the first shortest candidate, the last greedy tour, or the 2-opt run from the identity or from that greedy tour |
| PathSearch.FoundPathIsPermutation | path_search.py:371-372 | a found path holds the same points, re-ordered |
| PathSearch.FoundPathUnique | path_search.py:384-408 | each known strategy determines the path `find_path` returns |
| PathSearch.RunTwoOpt | path_search.py:396-398 | 2-opt from a permutation returns the route of the scan: a permutation no longer than the start, with its first stop, a local optimum without budget |
| PathSearch.SolveRoute | path_search.py:384-408 | each known strategy yields a permutation that is its route, with nearest neighbour and 2-opt each under its own budget |
| PathSearch.FindPath | path_search.py:351-410 | validation errors propagate; fewer than two points come back unchanged; a known strategy returns the points re-ordered by its route; an unknown one raises `ValueError` |
| PathSearch.StepTwoOpt | path_search.py:275-279 | the routes shown are exactly those 2-opt yields, a chain of improving steps from the start; the route held at the end is the one 2-opt returns |
| PathSearch.Frames | path_search.py:268-270 | each frame lists the points in the order of the matching route |
| PathSearch.AllPermutationsAppend | path_search.py:285-293 | the frames of both phases are all permutations |
| PathSearch.StepBruteforce | path_search.py:257-263 | the exact solver shows a single frame, its result |
| PathSearch.StepNearest | path_search.py:265-271 | one frame per start tried, each the greedy tour from that start; the result is the last one, or the input order |
| PathSearch.StepTwoOptOnly | path_search.py:273-279 | 2-opt from the identity shows each improving step in scan order and ends at its route; nothing is shown when the identity is already a local optimum |
| PathSearch.StepTwoOptOnlyIntended | path_search.py:273-279 | the route 2-opt returns is always shown last: the yielded routes, or that route alone when none was yielded |
| PathSearch.StepNearestTwoOpt | path_search.py:281-295 | the greedy frames are followed by the 2-opt frames started from the last greedy tour |
| PathSearch.ChainedResult | path_search.py:281-295 | the frames of the two phases end at the route 2-opt returns |
| PathSearch.StepRoutes | path_search.py:257-295 | the routes each strategy shows and the route it ends at, which is its route |
| PathSearch.FramesArePermutations | path_search.py:268-293 | every frame is a re-ordering of the points |
| PathSearch.ShownOutcome | path_search.py:267-295 | the returned path is the last frame, or the input order when nothing was shown, and is the strategy's path |
| PathSearch.ShowSearch | path_search.py:255-295 | what `find_path_step` shows and returns for a known strategy on two points or more |
| PathSearch.FindPathStep | path_search.py:238-297 | validation errors propagate; one frame for fewer than two points; an unknown strategy yields nothing and raises `UnboundLocalError`; otherwise the strategy's frames and its path |
| PathSearch.StepEndsWithFindPath | game_screen.py:271 | when frames are shown, the last one is what `find_path` returns; for a known strategy both return the same |
| PathSearch.FindPathStepIntended | path_search.py:297 | an unknown strategy raises the `ValueError` of `find_path`; otherwise as `find_path_step` |
| PathSearch.IntendedStepAgrees | path_search.py:410 | with that error the step search returns what `find_path` returns, for every strategy |
| PathSearch.ComputeMst | path_search.py:300-348 | validation errors propagate; no edge below two points; otherwise n-1 edges in Prim order spanning every point |

## Left out

- Floating point: distances, lengths and the `1e-12` margin are exact reals, so rounding in sums and comparisons is not modelled.
- `math.hypot` is the parameter `metric`. The only property assumed of it is that it is non-negative.
- The numpy/scipy `cdist` fast path of `_distance_matrix` (path_search.py:48-58) calls a foreign library. Only the fallback loop is modelled.
- `float()` applied to strings and other objects is abstracted to a coordinate that either converts to a real or is refused (`NotAFloat`). Which inputs `float()` accepts is not modelled.
- The wall clock (`time.perf_counter`) is replaced by `Budget`. How much work fits in a number of seconds is not modelled.
- `_solve_bruteforce` has a fallback `list(range(n))` for the case where no candidate beat infinity (path_search.py:108). It is not separately modelled, because the first candidate always has a finite length.
- Object identity is not modelled. `find_path` returns fresh lists and `_two_opt_gen` yields copies (path_search.py:216). With values in place of objects, aliasing between the yielded lists and the route being mutated does not arise.
- PathSearch.FindPath: requires the metric to be non-negative, which `math.hypot` guarantees. 2-opt's termination argument uses it.
- SpanningTree.PrimMst and PathSearch.ComputeMst: prove the cut property for every edge and that the edges span all vertices. That is the classical argument for a minimum spanning tree, but the minimality over all spanning trees is not itself stated as a theorem.
- PathSearch.StepEndsWithFindPath: compares a `find_path` call and a `find_path_step` call in which each search's clock runs out at the same check. With a real clock the two calls are separate runs, and the consumer of `find_path_step` sleeps between frames (game_screen.py:269), so under a budget they can stop at different checks and return different paths.
- Lazily interleaving a generator with its consumer is not modelled. Each generator is a method that returns everything it yields, so stopping the consumer early is not captured.
- `game_screen.py`, `vector.py`, `benchmark.py` and `tsp_visualization.py` are not part of this model. They hold the UI, its worker thread, float vector arithmetic, timing and command-line handling.
