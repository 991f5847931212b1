/** The public entry points of the route search: `find_path`,
    `find_path_step` and `compute_mst`. Strategies are the strings the
    callers pass; the Euclidean distance is the parameter `metric`. */
module PathSearch {
  import opened Common
  import opened Points
  import opened Distances
  import opened Tours
  import opened Bruteforce
  import opened Nearest
  import opened LocalSearch
  import opened SpanningTree

  /** The branch `find_path` takes. */
  datatype Plan = BruteforcePlan | NearestPlan | TwoOptPlan | NearestTwoOptPlan | UnknownPlan

  /** The branch for a strategy name once "auto" is resolved: the exact
      solver up to ten points, nearest neighbour followed by 2-opt above;
      any other name than the five strategies has no branch. */
  function Resolve(strategy: string, n: nat): (p: Plan)
    ensures p == UnknownPlan <==>
              strategy !in {"auto", "bruteforce", "nearest", "two_opt", "nearest_two_opt"}
    ensures strategy == "auto" ==> (p == BruteforcePlan <==> n <= 10) && (p == NearestTwoOptPlan <==> n > 10)
  {
    if strategy == "auto" then
      if n <= 10 then BruteforcePlan else NearestTwoOptPlan
    else if strategy == "bruteforce" then BruteforcePlan
    else if strategy == "nearest" then NearestPlan
    else if strategy == "two_opt" then TwoOptPlan
    else if strategy == "nearest_two_opt" then NearestTwoOptPlan
    else UnknownPlan
  }

  /** `path` lists the points in the order of `route`, a permutation of
      their indices. */
  ghost predicate Reorders(pts: seq<Point>, route: seq<nat>, path: seq<Point>)
  {
    && IsPermutation(route, |pts|)
    && (forall i | 0 <= i < |route| :: route[i] < |pts|)
    && path == Reindex(pts, route)
  }

  /** A shortest route over all the stops. */
  ghost predicate IsOptimal(d: Table, closed: bool, route: seq<nat>)
  {
    && IsPermutation(route, |d|) && ValidRoute(d, route)
    && forall p | IsPermutation(p, |d|) && ValidRoute(d, p) ::
         RouteLength(d, route, closed) <= RouteLength(d, p, closed)
  }

  /** What `_solve_bruteforce` returns for two stops or more: the first
      shortest candidate in enumeration order, which is no longer than any
      permutation and, for a closed tour, starts at 0. */
  ghost predicate IsBruteforceRoute(d: Table, closed: bool, route: seq<nat>)
  {
    && IsOptimal(d, closed, route) && (closed ==> route != [] && route[0] == 0)
    && exists idx: nat :: && idx < |Candidates(|d|, closed)| && Candidates(|d|, closed)[idx] == route
                          && IsFirstMinimum(d, Candidates(|d|, closed), idx, closed)
  }

  /** What `_solve_nearest_neighbor` returns for two stops or more: the
      greedy route from the last start tried, or the identity order when
      the budget stopped it before the first start. */
  ghost predicate IsNearestResult(d: Table, budget: Budget, route: seq<nat>)
  {
    if StartsTried(budget, |d|) == 0 then route == Range(0, |d|)
    else IsGreedyTour(d, route, StartsTried(budget, |d|) - 1)
  }

  /** `_solve_nearest_neighbor` has one possible result. */
  lemma NearestResultUnique(d: Table, budget: Budget, r1: seq<nat>, r2: seq<nat>)
    requires IsNearestResult(d, budget, r1) && IsNearestResult(d, budget, r2)
    ensures r1 == r2
  {
    if StartsTried(budget, |d|) > 0 {
      GreedyUnique(d, r1, r2, StartsTried(budget, |d|) - 1);
    }
  }

  /** What `_two_opt` returns from `start`: the route the first-improvement
      scan ends at, which holds the same stops, is no longer, keeps the
      first stop, and is a local optimum unless the budget cut it short. */
  ghost predicate IsTwoOptResult(d: Table, closed: bool, budget: Budget, start: seq<nat>, route: seq<nat>)
  {
    && IsDistanceTable(d) && ValidRoute(d, start) && route == TwoOptRun(d, closed, budget, start).route
    && IsPermutation(route, |d|) && ValidRoute(d, route)
    && RouteLength(d, route, closed) <= RouteLength(d, start, closed)
    && (start != [] ==> route != [] && route[0] == start[0])
    && (budget.Unlimited? ==> IsTwoOptOptimal(d, route, closed))
  }

  /** The route a known strategy produces on at least two stops. The
      nearest-neighbour search and 2-opt each get the budget from their
      own start. */
  ghost predicate IsStrategyRoute(d: Table, plan: Plan, closed: bool, budget: TimeBudget, route: seq<nat>)
  {
    match plan
    case BruteforcePlan => IsBruteforceRoute(d, closed, route)
    case NearestPlan => IsNearestResult(d, NearestBudget(budget), route)
    case TwoOptPlan => IsTwoOptResult(d, closed, TwoOptBudget(budget), Range(0, |d|), route)
    case NearestTwoOptPlan =>
      exists nn :: IsNearestResult(d, NearestBudget(budget), nn) && IsTwoOptResult(d, closed, TwoOptBudget(budget), nn, route)
    case UnknownPlan => false
  }

  /** Each strategy determines its route. */
  lemma StrategyRouteUnique(d: Table, plan: Plan, closed: bool, budget: TimeBudget, r1: seq<nat>, r2: seq<nat>)
    requires IsStrategyRoute(d, plan, closed, budget, r1) && IsStrategyRoute(d, plan, closed, budget, r2)
    ensures r1 == r2
  {
    match plan {
      case BruteforcePlan =>
        var cands := Candidates(|d|, closed);
        var i1: nat :| i1 < |cands| && cands[i1] == r1 && IsFirstMinimum(d, cands, i1, closed);
        var i2: nat :| i2 < |cands| && cands[i2] == r2 && IsFirstMinimum(d, cands, i2, closed);
        FirstMinimumUnique(d, cands, i1, closed);
      case NearestPlan =>
        NearestResultUnique(d, NearestBudget(budget), r1, r2);
      case TwoOptPlan =>
      case NearestTwoOptPlan =>
        var nn1 :| IsNearestResult(d, NearestBudget(budget), nn1) && IsTwoOptResult(d, closed, TwoOptBudget(budget), nn1, r1);
        var nn2 :| IsNearestResult(d, NearestBudget(budget), nn2) && IsTwoOptResult(d, closed, TwoOptBudget(budget), nn2, r2);
        NearestResultUnique(d, NearestBudget(budget), nn1, nn2);
    }
  }

  /** The path a known strategy produces on at least two points. */
  ghost predicate IsFoundPath(pts: seq<Point>, d: Table, plan: Plan, closed: bool, budget: TimeBudget, path: seq<Point>)
  {
    exists route :: Reorders(pts, route, path) && IsStrategyRoute(d, plan, closed, budget, route)
  }

  /** A found path holds the same points, re-ordered. */
  lemma FoundPathIsPermutation(pts: seq<Point>, d: Table, plan: Plan, closed: bool, budget: TimeBudget, path: seq<Point>)
    requires IsFoundPath(pts, d, plan, closed, budget, path)
    ensures plan != UnknownPlan
    ensures |path| == |pts| && multiset(path) == multiset(pts)
  {
    var route :| Reorders(pts, route, path) && IsStrategyRoute(d, plan, closed, budget, route);
    ReindexIsPermutation(pts, route);
  }

  /** Each strategy determines the path it finds. */
  lemma FoundPathUnique(pts: seq<Point>, d: Table, plan: Plan, closed: bool, budget: TimeBudget, p1: seq<Point>, p2: seq<Point>)
    requires IsFoundPath(pts, d, plan, closed, budget, p1) && IsFoundPath(pts, d, plan, closed, budget, p2)
    ensures p1 == p2
  {
    var r1 :| Reorders(pts, r1, p1) && IsStrategyRoute(d, plan, closed, budget, r1);
    var r2 :| Reorders(pts, r2, p2) && IsStrategyRoute(d, plan, closed, budget, r2);
    StrategyRouteUnique(d, plan, closed, budget, r1, r2);
  }

  /** `route` as the list the 2-opt search rearranges in place. */
  method ToArray(route: seq<nat>) returns (a: array<nat>)
    ensures fresh(a) && a[..] == route
  {
    a := new nat[|route|](i requires 0 <= i < |route| => route[i]);
  }

  /** `_two_opt` started from a route value, through the in-place search. */
  method RunTwoOpt(start: seq<nat>, d: Table, closed: bool, budget: Budget) returns (route: seq<nat>)
    requires IsDistanceTable(d) && IsPermutation(start, |d|)
    ensures IsTwoOptResult(d, closed, budget, start, route)
  {
    PermutationBounds(start, |d|);
    var a := ToArray(start);
    route := TwoOpt(a, d, closed, budget);
  }

  /** `_two_opt_gen` started from a route value: the routes it yields and
      the route the caller holds at the end. */
  method StepTwoOpt(start: seq<nat>, d: Table, closed: bool, budget: Budget) returns (routes: seq<seq<nat>>, route: seq<nat>)
    requires IsDistanceTable(d) && IsPermutation(start, |d|)
    ensures IsTwoOptResult(d, closed, budget, start, route)
    ensures routes == TwoOptRun(d, closed, budget, start).yielded
    ensures route == LastOr(routes, start)
    ensures IsTraceTo(d, closed, start, routes, route)
    ensures IsTwoOptOptimal(d, start, closed) ==> routes == []
    ensures AllPermutations(routes, |d|)
  {
    PermutationBounds(start, |d|);
    var a := ToArray(start);
    var stoppedEarly;
    routes, stoppedEarly := TwoOptGen(a, d, closed, budget);
    route := a[..];
    TwoOptRunFacts(d, closed, budget, start);
    if routes != [] {
      ChainShortens(d, closed, start, routes);
    }
  }

  /** `find_path`: validation, the trivial case, then one branch per
      strategy; an unknown strategy raises `ValueError`. */
  ghost predicate FindsPath(points: seq<RawPoint>, strategy: string, closed: bool, budget: TimeBudget,
                            metric: (Point, Point) -> real, r: Result<seq<Point>>)
  {
    match Coerced(points)
    case Failure(e) => r == Failure(e)
    case Success(pts) =>
      if |pts| < 2 then r == Success(pts)
      else if Resolve(strategy, |pts|) == UnknownPlan then r == Failure(UnknownStrategy(strategy))
      else r.Success? && IsFoundPath(pts, TableOf(pts, metric), Resolve(strategy, |pts|), closed, budget, r.value)
  }

  method FindPath(points: seq<RawPoint>, strategy: string, closed: bool, budget: TimeBudget, metric: (Point, Point) -> real)
    returns (r: Result<seq<Point>>)
    requires IsNonNegativeMetric(metric)
    ensures FindsPath(points, strategy, closed, budget, metric, r)
    ensures r.Success? ==> Coerced(points).Success? && multiset(r.value) == multiset(Coerced(points).value)
  {
    var coerced := CoercePoints(points);
    if coerced.Failure? {
      return Failure(coerced.error);
    }
    var pts := coerced.value;
    var n := |pts|;
    if n < 2 {
      return Success(pts);
    }
    var plan := Resolve(strategy, n);
    if plan == UnknownPlan {
      return Failure(UnknownStrategy(strategy));
    }
    var d := DistanceMatrix(pts, metric);
    var route := SolveRoute(d, plan, closed, budget);
    PermutationBounds(route, n);
    r := Success(Reindex(pts, route));
    assert Reorders(pts, route, r.value);
    FoundPathIsPermutation(pts, d, plan, closed, budget, r.value);
  }

  /** The branch of `find_path` for a known strategy, on the distance table. */
  method SolveRoute(d: Table, plan: Plan, closed: bool, budget: TimeBudget) returns (route: seq<nat>)
    requires IsDistanceTable(d) && |d| >= 2 && plan != UnknownPlan
    ensures IsPermutation(route, |d|) && IsStrategyRoute(d, plan, closed, budget, route)
  {
    match plan {
      case BruteforcePlan =>
        route := SolveBruteforce(d, closed);
      case NearestPlan =>
        route := NearestNeighbor(d, closed, NearestBudget(budget));
        assert IsNearestResult(d, NearestBudget(budget), route);
      case TwoOptPlan =>
        assert IsPermutation(Range(0, |d|), |d|);
        route := RunTwoOpt(Range(0, |d|), d, closed, TwoOptBudget(budget));
      case NearestTwoOptPlan =>
        var nn := NearestNeighbor(d, closed, NearestBudget(budget));
        assert IsNearestResult(d, NearestBudget(budget), nn);
        assert IsPermutation(nn, |d|);
        route := RunTwoOpt(nn, d, closed, TwoOptBudget(budget));
    }
  }

  /** Every frame lists the points in the order of a route. */
  ghost predicate Shows(pts: seq<Point>, routes: seq<seq<nat>>, frames: seq<seq<Point>>)
  {
    && |frames| == |routes|
    && forall j | 0 <= j < |routes| :: Reorders(pts, routes[j], frames[j])
  }

  /** The frames for a list of routes, as the loops of `find_path_step`
      yield them. */
  method Frames(pts: seq<Point>, routes: seq<seq<nat>>) returns (frames: seq<seq<Point>>)
    requires AllPermutations(routes, |pts|)
    ensures Shows(pts, routes, frames)
  {
    frames := [];
    for j := 0 to |routes|
      invariant Shows(pts, routes[..j], frames)
    {
      PermutationBounds(routes[j], |pts|);
      frames := frames + [Reindex(pts, routes[j])];
    }
    assert routes[..|routes|] == routes;
  }

  /** Every route holds each of the n stops once. */
  ghost predicate AllPermutations(routes: seq<seq<nat>>, n: nat)
  {
    forall j | 0 <= j < |routes| :: IsPermutation(routes[j], n)
  }

  lemma AllPermutationsAppend(a: seq<seq<nat>>, b: seq<seq<nat>>, n: nat)
    requires AllPermutations(a, n) && AllPermutations(b, n)
    ensures AllPermutations(a + b, n)
  {
    forall j | 0 <= j < |a + b|
      ensures IsPermutation((a + b)[j], n)
    {
      if j >= |a| {
        assert (a + b)[j] == b[j - |a|];
      }
    }
  }

  /** The route a `for r in gen: route = r` loop holds afterwards: the
      last route yielded, or the one it held before. */
  function LastOr(routes: seq<seq<nat>>, before: seq<nat>): seq<nat>
  {
    if routes == [] then before else routes[|routes| - 1]
  }

  /** The greedy routes of the starts tried, in order. */
  ghost predicate IsGreedyTrace(d: Table, budget: Budget, routes: seq<seq<nat>>)
  {
    && |routes| == StartsTried(budget, |d|)
    && forall j | 0 <= j < |routes| :: IsGreedyTour(d, routes[j], j)
  }

  /** The routes behind the frames `find_path_step` shows for a known
      strategy: the exact solver's one route; the greedy route of every
      start tried; the routes 2-opt yields from the input order; or the
      greedy routes followed by the routes 2-opt yields from the last of
      them. */
  ghost predicate IsShownRoutes(d: Table, plan: Plan, closed: bool, budget: TimeBudget, routes: seq<seq<nat>>)
  {
    match plan
    case BruteforcePlan => |routes| == 1
    case NearestPlan => IsGreedyTrace(d, NearestBudget(budget), routes)
    case TwoOptPlan =>
      IsDistanceTable(d) && routes == TwoOptRun(d, closed, TwoOptBudget(budget), Range(0, |d|)).yielded
    case NearestTwoOptPlan =>
      exists nnRoutes ::
        && IsGreedyTrace(d, NearestBudget(budget), nnRoutes)
        && IsDistanceTable(d) && ValidRoute(d, LastOr(nnRoutes, Range(0, |d|)))
        && routes == nnRoutes + TwoOptRun(d, closed, TwoOptBudget(budget), LastOr(nnRoutes, Range(0, |d|))).yielded
    case UnknownPlan => false
  }

  /** What the loops of `find_path_step` leave behind for a known
      strategy: the routes behind its frames, each a permutation, and the
      route it returns, which is the strategy's route and the last one
      shown, or the identity order when none was shown. */
  ghost predicate IsStepResult(d: Table, plan: Plan, closed: bool, budget: TimeBudget, routes: seq<seq<nat>>, route: seq<nat>)
  {
    && IsPermutation(route, |d|) && IsStrategyRoute(d, plan, closed, budget, route)
    && AllPermutations(routes, |d|) && IsShownRoutes(d, plan, closed, budget, routes)
    && route == LastOr(routes, Range(0, |d|))
  }

  /** The "bruteforce" branch of `find_path_step`: a single frame. */
  method StepBruteforce(d: Table, closed: bool, budget: TimeBudget) returns (routes: seq<seq<nat>>, route: seq<nat>)
    requires IsSquare(d) && |d| >= 2
    ensures IsStepResult(d, BruteforcePlan, closed, budget, routes, route)
    ensures routes == [route]
  {
    route := SolveBruteforce(d, closed);
    routes := [route];
  }

  /** The nearest-neighbour loop of `find_path_step`: one frame per start
      tried, and the route of the last one. */
  method StepNearest(d: Table, closed: bool, budget: TimeBudget) returns (routes: seq<seq<nat>>, route: seq<nat>)
    requires IsSquare(d) && |d| >= 2
    ensures IsStepResult(d, NearestPlan, closed, budget, routes, route)
  {
    var best;
    routes, best := NearestNeighborGen(d, closed, NearestBudget(budget));
    route := LastOr(routes, Range(0, |d|));
    assert IsPermutation(route, |d|) by {
      if routes == [] {
        assert IsPermutation(Range(0, |d|), |d|);
      }
    }
  }

  /** The "two_opt" branch of `find_path_step`: 2-opt from the input order. */
  method StepTwoOptOnly(d: Table, closed: bool, budget: TimeBudget) returns (routes: seq<seq<nat>>, route: seq<nat>)
    requires IsDistanceTable(d) && |d| >= 2
    ensures IsStepResult(d, TwoOptPlan, closed, budget, routes, route)
    ensures IsTraceTo(d, closed, Range(0, |d|), routes, route)
    ensures IsTwoOptOptimal(d, Range(0, |d|), closed) ==> routes == []
  {
    assert IsPermutation(Range(0, |d|), |d|);
    routes, route := StepTwoOpt(Range(0, |d|), d, closed, TwoOptBudget(budget));
  }

  /** The evidently intended "two_opt" branch of `find_path_step`: when
      no reversal applies it still shows the route it returns, so the last
      frame is always the result. */
  method StepTwoOptOnlyIntended(d: Table, closed: bool, budget: TimeBudget) returns (routes: seq<seq<nat>>, route: seq<nat>)
    requires IsDistanceTable(d) && |d| >= 2
    ensures IsStrategyRoute(d, TwoOptPlan, closed, budget, route)
    ensures routes != [] && routes[|routes| - 1] == route
    ensures var yielded := TwoOptRun(d, closed, TwoOptBudget(budget), Range(0, |d|)).yielded;
            routes == if yielded == [] then [route] else yielded
  {
    routes, route := StepTwoOptOnly(d, closed, budget);
    if routes == [] {
      routes := [route];
    }
  }

  /** Both phases of `find_path_step` for "nearest_two_opt": the
      nearest-neighbour frames, then the 2-opt frames from the route the
      first phase ends with. */
  method StepNearestTwoOpt(d: Table, closed: bool, budget: TimeBudget) returns (routes: seq<seq<nat>>, route: seq<nat>)
    requires IsDistanceTable(d) && |d| >= 2
    ensures IsStepResult(d, NearestTwoOptPlan, closed, budget, routes, route)
  {
    var nnRoutes, nn := StepNearest(d, closed, budget);
    var optRoutes;
    optRoutes, route := StepTwoOpt(nn, d, closed, TwoOptBudget(budget));
    routes := nnRoutes + optRoutes;
    ChainedResult(d, closed, budget, nnRoutes, nn, optRoutes, route);
  }

  /** The routes of the greedy search followed by those of 2-opt from its
      result, ending at the route 2-opt returns. */
  lemma ChainedResult(d: Table, closed: bool, budget: TimeBudget, nnRoutes: seq<seq<nat>>, nn: seq<nat>,
                      optRoutes: seq<seq<nat>>, route: seq<nat>)
    requires IsStepResult(d, NearestPlan, closed, budget, nnRoutes, nn)
    requires IsTwoOptResult(d, closed, TwoOptBudget(budget), nn, route)
    requires optRoutes == TwoOptRun(d, closed, TwoOptBudget(budget), nn).yielded
    requires AllPermutations(optRoutes, |d|) && route == LastOr(optRoutes, nn)
    ensures IsStepResult(d, NearestTwoOptPlan, closed, budget, nnRoutes + optRoutes, route)
  {
    AllPermutationsAppend(nnRoutes, optRoutes, |d|);
    if optRoutes != [] {
      assert (nnRoutes + optRoutes)[|nnRoutes + optRoutes| - 1] == optRoutes[|optRoutes| - 1];
    } else {
      assert nnRoutes + optRoutes == nnRoutes;
    }
  }

  /** The routes behind the frames of `find_path_step` on a table of at
      least two stops, and the route it holds at the end. */
  method StepRoutes(d: Table, plan: Plan, closed: bool, budget: TimeBudget) returns (routes: seq<seq<nat>>, route: seq<nat>)
    requires IsDistanceTable(d) && |d| >= 2 && plan != UnknownPlan
    ensures IsStepResult(d, plan, closed, budget, routes, route)
  {
    match plan {
      case BruteforcePlan =>
        routes, route := StepBruteforce(d, closed, budget);
      case NearestPlan =>
        routes, route := StepNearest(d, closed, budget);
      case TwoOptPlan =>
        routes, route := StepTwoOptOnly(d, closed, budget);
      case NearestTwoOptPlan =>
        routes, route := StepNearestTwoOpt(d, closed, budget);
    }
  }

  /** What `find_path_step` yields and returns for a known strategy on at
      least two points: the path `find_path` finds, the last frame as the
      result (the input order when nothing was shown), every frame a
      re-ordering of the points, and the frames those of the strategy's
      routes. */
  ghost predicate IsStepOutcome(pts: seq<Point>, d: Table, plan: Plan, closed: bool, budget: TimeBudget,
                                frames: seq<seq<Point>>, outcome: Result<seq<Point>>)
  {
    && outcome.Success? && IsFoundPath(pts, d, plan, closed, budget, outcome.value)
    && (frames == [] ==> outcome.value == pts)
    && (frames != [] ==> outcome.value == frames[|frames| - 1])
    && (forall j | 0 <= j < |frames| :: multiset(frames[j]) == multiset(pts))
    && exists routes :: Shows(pts, routes, frames) && IsShownRoutes(d, plan, closed, budget, routes)
  }

  /** Each frame of a re-ordering shows every point once. */
  lemma FramesArePermutations(pts: seq<Point>, routes: seq<seq<nat>>, frames: seq<seq<Point>>)
    requires Shows(pts, routes, frames)
    ensures forall j | 0 <= j < |frames| :: multiset(frames[j]) == multiset(pts)
  {
    forall j | 0 <= j < |frames|
      ensures multiset(frames[j]) == multiset(pts)
    {
      ReindexIsPermutation(pts, routes[j]);
    }
  }

  /** The part of `find_path_step` after validation, for a known strategy
      and at least two points. */
  method ShowSearch(pts: seq<Point>, d: Table, plan: Plan, closed: bool, budget: TimeBudget)
    returns (frames: seq<seq<Point>>, outcome: Result<seq<Point>>)
    requires |pts| >= 2 && |d| == |pts| && IsDistanceTable(d) && plan != UnknownPlan
    ensures IsStepOutcome(pts, d, plan, closed, budget, frames, outcome)
  {
    var routes, route := StepRoutes(d, plan, closed, budget);
    frames := Frames(pts, routes);
    PermutationBounds(route, |pts|);
    outcome := Success(Reindex(pts, route));
    ShownOutcome(pts, d, plan, closed, budget, routes, route, frames);
    FramesArePermutations(pts, routes, frames);
  }

  /** The path a step search returns is found by the strategy and is the
      last frame shown, or the input order when none was shown. */
  lemma ShownOutcome(pts: seq<Point>, d: Table, plan: Plan, closed: bool, budget: TimeBudget,
                     routes: seq<seq<nat>>, route: seq<nat>, frames: seq<seq<Point>>)
    requires |d| == |pts| && IsStepResult(d, plan, closed, budget, routes, route)
    requires Shows(pts, routes, frames)
    ensures IsPermutation(route, |pts|) && Reorders(pts, route, Reindex(pts, route))
    ensures IsFoundPath(pts, d, plan, closed, budget, Reindex(pts, route))
    ensures frames == [] ==> Reindex(pts, route) == pts
    ensures frames != [] ==> Reindex(pts, route) == frames[|frames| - 1]
  {
    PermutationBounds(route, |pts|);
    assert Reorders(pts, route, Reindex(pts, route));
    if frames != [] {
      assert Reorders(pts, routes[|routes| - 1], frames[|frames| - 1]);
    } else {
      ReindexIdentity(pts);
    }
  }

  /** `find_path_step`: the frames the generator yields and what it
      finally returns or raises. An unknown strategy reaches `return
      route` with `route` unbound, after yielding nothing. */
  ghost predicate StepsPath(points: seq<RawPoint>, strategy: string, closed: bool, budget: TimeBudget,
                            metric: (Point, Point) -> real, frames: seq<seq<Point>>, outcome: Result<seq<Point>>)
  {
    match Coerced(points)
    case Failure(e) => frames == [] && outcome == Failure(e)
    case Success(pts) =>
      if |pts| < 2 then frames == [pts] && outcome == Success(pts)
      else if Resolve(strategy, |pts|) == UnknownPlan then frames == [] && outcome == Failure(UnboundRoute)
      else IsStepOutcome(pts, TableOf(pts, metric), Resolve(strategy, |pts|), closed, budget, frames, outcome)
  }

  method FindPathStep(points: seq<RawPoint>, strategy: string, closed: bool, budget: TimeBudget, metric: (Point, Point) -> real)
    returns (frames: seq<seq<Point>>, outcome: Result<seq<Point>>)
    requires IsNonNegativeMetric(metric)
    ensures StepsPath(points, strategy, closed, budget, metric, frames, outcome)
  {
    var coerced := CoercePoints(points);
    if coerced.Failure? {
      return [], Failure(coerced.error);
    }
    var pts := coerced.value;
    var n := |pts|;
    if n < 2 {
      return [pts], Success(pts);
    }
    var plan := Resolve(strategy, n);
    if plan == UnknownPlan {
      return [], Failure(UnboundRoute);
    }
    var d := DistanceMatrix(pts, metric);
    frames, outcome := ShowSearch(pts, d, plan, closed, budget);
  }

  /** Whatever `find_path_step` shows last is what `find_path` returns for
      the same arguments, and for a known strategy both end the same way. */
  lemma StepEndsWithFindPath(points: seq<RawPoint>, strategy: string, closed: bool, budget: TimeBudget,
                             metric: (Point, Point) -> real, r: Result<seq<Point>>,
                             frames: seq<seq<Point>>, outcome: Result<seq<Point>>)
    requires FindsPath(points, strategy, closed, budget, metric, r)
    requires StepsPath(points, strategy, closed, budget, metric, frames, outcome)
    ensures frames != [] ==> r == Success(frames[|frames| - 1])
    ensures Resolve(strategy, |points|) != UnknownPlan ==> outcome == r
  {
    if Coerced(points).Success? {
      var pts := Coerced(points).value;
      if |pts| >= 2 && Resolve(strategy, |pts|) != UnknownPlan {
        FoundPathUnique(pts, TableOf(pts, metric), Resolve(strategy, |pts|), closed, budget, r.value, outcome.value);
      }
    }
  }

  /** The evidently intended `find_path_step`: an unknown strategy raises
      the `ValueError` of `find_path` instead of `UnboundLocalError`. */
  ghost predicate StepsPathIntended(points: seq<RawPoint>, strategy: string, closed: bool, budget: TimeBudget,
                                    metric: (Point, Point) -> real, frames: seq<seq<Point>>, outcome: Result<seq<Point>>)
  {
    if Coerced(points).Success? && |points| >= 2 && Resolve(strategy, |points|) == UnknownPlan
    then frames == [] && outcome == Failure(UnknownStrategy(strategy))
    else StepsPath(points, strategy, closed, budget, metric, frames, outcome)
  }

  method FindPathStepIntended(points: seq<RawPoint>, strategy: string, closed: bool, budget: TimeBudget, metric: (Point, Point) -> real)
    returns (frames: seq<seq<Point>>, outcome: Result<seq<Point>>)
    requires IsNonNegativeMetric(metric)
    ensures StepsPathIntended(points, strategy, closed, budget, metric, frames, outcome)
  {
    frames, outcome := FindPathStep(points, strategy, closed, budget, metric);
    if outcome == Failure(UnboundRoute) {
      outcome := Failure(UnknownStrategy(strategy));
    }
  }

  /** With the intended error the step search ends exactly as `find_path`
      does, whatever the strategy. */
  lemma IntendedStepAgrees(points: seq<RawPoint>, strategy: string, closed: bool, budget: TimeBudget,
                           metric: (Point, Point) -> real, r: Result<seq<Point>>,
                           frames: seq<seq<Point>>, outcome: Result<seq<Point>>)
    requires FindsPath(points, strategy, closed, budget, metric, r)
    requires StepsPathIntended(points, strategy, closed, budget, metric, frames, outcome)
    ensures outcome == r
    ensures frames != [] ==> r == Success(frames[|frames| - 1])
  {
    if !(Coerced(points).Success? && |points| >= 2 && Resolve(strategy, |points|) == UnknownPlan) {
      StepEndsWithFindPath(points, strategy, closed, budget, metric, r, frames, outcome);
    }
  }

  /** `compute_mst`: validation, no edge below two points, otherwise
      Prim's algorithm on the distance table. */
  method ComputeMst(points: seq<RawPoint>, metric: (Point, Point) -> real) returns (r: Result<seq<Edge>>)
    ensures Coerced(points).Failure? ==> r == Failure(Coerced(points).error)
    ensures Coerced(points).Success? && |points| < 2 ==> r == Success([])
    ensures Coerced(points).Success? && |points| >= 2 ==>
              var d := TableOf(Coerced(points).value, metric);
              && r.Success? && |r.value| == |points| - 1
              && IsPrimOrder(d, r.value)
              && forall v: nat | v < |points| :: v in Grown(r.value, |r.value|)
  {
    var coerced := CoercePoints(points);
    if coerced.Failure? {
      return Failure(coerced.error);
    }
    var pts := coerced.value;
    if |pts| < 2 {
      return Success([]);
    }
    var d := DistanceMatrix(pts, metric);
    var edges := PrimMst(d);
    r := Success(edges);
  }
}
