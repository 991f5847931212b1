/** The nearest-neighbour heuristic (`_solve_nearest_neighbor_gen` and
    `_solve_nearest_neighbor`): one greedy route per start index. */
module Nearest {
  import opened Common
  import opened Distances
  import opened Tours

  /** Seen from stop `c`, stop `x` is at least as good a next stop as `y`:
      strictly closer, or as close and no later in the scan that `min`
      makes of the unvisited set. CPython iterates a set of small
      non-negative ints in increasing order, and `min` keeps the first of
      equal keys, so ties go to the smaller index. */
  ghost predicate NoWorse(d: Table, c: nat, x: nat, y: nat)
    requires IsSquare(d) && c < |d| && x < |d| && y < |d|
  {
    d[c][x] < d[c][y] || (d[c][x] == d[c][y] && x <= y)
  }

  /** Every stop after the first is a nearest one among the stops not yet
      visited at that point, which are exactly the stops that follow. */
  ghost predicate IsGreedy(d: Table, r: seq<nat>)
    requires ValidRoute(d, r)
  {
    forall i, m | 1 <= i <= m < |r| :: NoWorse(d, r[i - 1], r[i], r[m])
  }

  /** The route the inner loop builds from `start`. */
  ghost predicate IsGreedyTour(d: Table, r: seq<nat>, start: nat)
  {
    && IsPermutation(r, |d|) && ValidRoute(d, r)
    && r != [] && r[0] == start
    && IsGreedy(d, r)
  }

  /** How many starts the generator tries before the budget stops it: it
      consults the clock before every start, the first one included. */
  function StartsTried(budget: Budget, n: nat): (k: nat)
    ensures k <= n
    ensures forall c: nat | c < k :: !Expired(budget, c)
    ensures k < n ==> Expired(budget, k)
  {
    match budget
    case Unlimited => n
    case Checks(allowed) => if allowed < n then allowed else n
  }

  /** `set(range(n))` holds each index below n once, as the range does. */
  lemma AllIndicesMultiset(n: nat)
    ensures multiset(set i: nat | i in Range(0, n)) == multiset(Range(0, n))
  {
    forall x: nat
      ensures multiset(set i: nat | i in Range(0, n))[x] == multiset(Range(0, n))[x]
    {
      RangeCount(0, n, x);
      RangeMembership(0, n, x);
    }
  }

  /** `min(unvisited, key=lambda j: distances[current][j])`. */
  method ClosestUnvisited(d: Table, current: nat, unvisited: set<nat>) returns (nxt: nat)
    requires IsSquare(d) && current < |d|
    requires unvisited != {} && forall u | u in unvisited :: u < |d|
    ensures nxt in unvisited
    ensures forall u | u in unvisited :: NoWorse(d, current, nxt, u)
  {
    ghost var w :| w in unvisited;
    var found := false;
    nxt := 0;
    for j := 0 to |d|
      invariant found ==> nxt in unvisited && nxt < j
      invariant found ==> forall u | u in unvisited && u < j :: NoWorse(d, current, nxt, u)
      invariant !found ==> forall u | u in unvisited :: u >= j
      invariant w < j ==> found
    {
      if j in unvisited && (!found || d[current][j] < d[current][nxt]) {
        nxt := j;
        found := true;
      }
    }
  }

  /** The inner loop's invariant: `route` is greedy so far, and each of
      its stops after the first was no worse a choice than any stop still
      unvisited. */
  ghost predicate GreedySoFar(d: Table, route: seq<nat>, unvisited: set<nat>)
    requires ValidRoute(d, route) && forall u | u in unvisited :: u < |d|
  {
    && IsGreedy(d, route)
    && forall i, u | 1 <= i < |route| && u in unvisited :: NoWorse(d, route[i - 1], route[i], u)
  }

  /** Appending the closest unvisited stop keeps the inner loop's invariant. */
  lemma GreedyExtend(d: Table, route: seq<nat>, unvisited: set<nat>, nxt: nat)
    requires ValidRoute(d, route) && route != [] && forall u | u in unvisited :: u < |d|
    requires GreedySoFar(d, route, unvisited)
    requires nxt in unvisited
    requires forall u | u in unvisited :: NoWorse(d, route[|route| - 1], nxt, u)
    ensures ValidRoute(d, route + [nxt])
    ensures GreedySoFar(d, route + [nxt], unvisited - {nxt})
  {
    var r := route + [nxt];
    forall i, m | 1 <= i <= m < |r|
      ensures NoWorse(d, r[i - 1], r[i], r[m])
    {
      if m < |route| {
        assert NoWorse(d, route[i - 1], route[i], route[m]);
      } else if i < |route| {
        assert NoWorse(d, route[i - 1], route[i], nxt);
      }
    }
  }

  /** The inner loop's state: `route` starts at `start`, it and
      `unvisited` hold every index once between them, and the route is
      greedy so far. */
  ghost predicate Building(d: Table, start: nat, route: seq<nat>, unvisited: set<nat>)
  {
    && ValidRoute(d, route) && route != [] && route[0] == start
    && (forall u | u in unvisited :: u < |d|)
    && multiset(route) + multiset(unvisited) == multiset(Range(0, |d|))
    && GreedySoFar(d, route, unvisited)
  }

  /** `unvisited = set(range(n))`, `unvisited.remove(start)`,
      `route = [start]`. */
  lemma BuildingStart(d: Table, start: nat)
    requires IsSquare(d) && start < |d|
    ensures Building(d, start, [start], (set i: nat | i in Range(0, |d|)) - {start})
  {
    var all := set i: nat | i in Range(0, |d|);
    var rest := all - {start};
    StartSplitsIndices(|d|, start);
    IndicesBelow(|d|, all);
    assert ValidRoute(d, [start]);
    assert GreedySoFar(d, [start], rest);
  }

  lemma StartSplitsIndices(n: nat, start: nat)
    requires start < n
    ensures multiset([start]) + multiset((set i: nat | i in Range(0, n)) - {start}) == multiset(Range(0, n))
  {
    var all := set i: nat | i in Range(0, n);
    AllIndicesMultiset(n);
    RangeMembership(0, n, start);
    assert multiset([start]) + multiset(all - {start}) == multiset(all);
  }

  lemma IndicesBelow(n: nat, all: set<nat>)
    requires all == set i: nat | i in Range(0, n)
    ensures forall u | u in all :: u < n
  {
    forall u | u in all
      ensures u < n
    {
      RangeMembership(0, n, u);
    }
  }

  /** Moving the closest unvisited stop onto the route. */
  lemma BuildingStep(d: Table, start: nat, route: seq<nat>, unvisited: set<nat>, nxt: nat)
    requires Building(d, start, route, unvisited) && nxt in unvisited
    requires forall u | u in unvisited :: NoWorse(d, route[|route| - 1], nxt, u)
    ensures Building(d, start, route + [nxt], unvisited - {nxt})
  {
    GreedyExtend(d, route, unvisited, nxt);
    assert multiset(route + [nxt]) + multiset(unvisited - {nxt}) == multiset(route) + multiset(unvisited);
    assert (route + [nxt])[0] == start;
  }

  /** Lines 139-147: the greedy route from `start`, built by removing
      each next stop from `unvisited` and appending it to `route`. */
  method GreedyRoute(d: Table, start: nat) returns (route: seq<nat>)
    requires IsSquare(d) && start < |d|
    ensures IsGreedyTour(d, route, start)
  {
    var n := |d|;
    var unvisited: set<nat> := set i: nat | i in Range(0, n);
    BuildingStart(d, start);
    unvisited := unvisited - {start};
    route := [start];
    var current := start;
    while unvisited != {}
      invariant Building(d, start, route, unvisited)
      invariant current == route[|route| - 1]
      decreases |unvisited|
    {
      var nxt := ClosestUnvisited(d, current, unvisited);
      BuildingStep(d, start, route, unvisited, nxt);
      unvisited := unvisited - {nxt};
      route := route + [nxt];
      current := nxt;
    }
    BuildingDone(d, start, route);
  }

  /** With nothing left unvisited, the route built is the greedy tour. */
  lemma BuildingDone(d: Table, start: nat, route: seq<nat>)
    requires Building(d, start, route, {})
    ensures IsGreedyTour(d, route, start)
  {
    assert multiset(route) + multiset({}) == multiset(route);
  }

  /** The outer loop's state after `start` starts: one greedy route per
      start so far, each tried before the budget ran out, and the running
      minimum of the candidates (none before the first). */
  ghost predicate GenState(d: Table, closed: bool, budget: Budget, start: nat, trace: seq<seq<nat>>,
                           bestRoute: Option<seq<nat>>, bestLen: real, bestIdx: nat)
  {
    && start <= |d| && |trace| == start
    && (forall c: nat | c < start :: !Expired(budget, c))
    && (forall s | 0 <= s < start :: IsGreedyTour(d, trace[s], s))
    && (bestRoute.None? <==> start == 0)
    && (bestRoute.Some? ==>
          && bestIdx < start && trace[bestIdx] == bestRoute.value
          && IsFirstMinimum(d, trace, bestIdx, closed)
          && bestLen == RouteLength(d, bestRoute.value, closed))
  }

  /** One more start: its route is yielded, and it becomes the best one
      when there was none or when it is strictly shorter. */
  lemma GenStep(d: Table, closed: bool, budget: Budget, start: nat, trace: seq<seq<nat>>,
                bestRoute: Option<seq<nat>>, bestLen: real, bestIdx: nat, route: seq<nat>)
    requires GenState(d, closed, budget, start, trace, bestRoute, bestLen, bestIdx)
    requires start < |d| && !Expired(budget, start) && IsGreedyTour(d, route, start)
    ensures var length := RouteLength(d, route, closed);
            var better := bestRoute.None? || length < bestLen;
            GenState(d, closed, budget, start + 1, trace + [route],
                     if better then Some(route) else bestRoute,
                     if better then length else bestLen,
                     if better then start else bestIdx)
  {
    var t := trace + [route];
    assert forall s | 0 <= s < start :: IsGreedyTour(d, t[s], s) by {
      assert forall s | 0 <= s < start :: t[s] == trace[s];
    }
    assert t[start] == route;
    if bestRoute.None? {
      assert t == [route];
      FirstMinimumSingle(d, route, closed);
    } else {
      FirstMinimumAppend(d, trace, bestIdx, route, closed);
    }
  }

  /** `_solve_nearest_neighbor_gen`: the candidates it yields, one per
      start tried in the order 0, 1, ..., and the value it returns, the
      first shortest of them (`list(range(n))` when none was tried). */
  method NearestNeighborGen(d: Table, closed: bool, budget: Budget) returns (trace: seq<seq<nat>>, best: seq<nat>)
    requires IsSquare(d)
    ensures |d| < 2 ==> trace == []
    ensures |d| >= 2 ==> |trace| == StartsTried(budget, |d|)
    ensures forall s | 0 <= s < |trace| :: IsGreedyTour(d, trace[s], s)
    ensures trace == [] ==> best == Range(0, |d|)
    ensures trace != [] ==> exists idx: nat :: idx < |trace| && trace[idx] == best && IsFirstMinimum(d, trace, idx, closed)
  {
    var n := |d|;
    trace := [];
    if n < 2 {
      return trace, Range(0, n);
    }
    var bestRoute: Option<seq<nat>> := None;
    var bestLen := 0.0;
    ghost var bestIdx: nat := 0;
    var start := 0;
    while start < n
      invariant GenState(d, closed, budget, start, trace, bestRoute, bestLen, bestIdx)
      decreases n - start
    {
      if Expired(budget, start) {
        break;
      }
      var route := GreedyRoute(d, start);
      GenStep(d, closed, budget, start, trace, bestRoute, bestLen, bestIdx, route);
      trace := trace + [route];
      var length := RouteLength(d, route, closed);
      if bestRoute.None? || length < bestLen {
        bestRoute := Some(route);
        bestLen := length;
        bestIdx := start;
      }
      start := start + 1;
    }
    best := if bestRoute.Some? then bestRoute.value else Range(0, n);
  }

  /** `_solve_nearest_neighbor`: keeps the last candidate the generator
      yields and drops the generator's return value, so the result is the
      greedy route from the last start tried, not the shortest one. */
  method NearestNeighbor(d: Table, closed: bool, budget: Budget) returns (result: seq<nat>)
    requires IsSquare(d)
    ensures |d| < 2 || StartsTried(budget, |d|) == 0 ==> result == Range(0, |d|)
    ensures |d| >= 2 && StartsTried(budget, |d|) > 0 ==> IsGreedyTour(d, result, StartsTried(budget, |d|) - 1)
  {
    var trace, _ := NearestNeighborGen(d, closed, budget);
    result := Range(0, |d|);
    for j := 0 to |trace|
      invariant j == 0 ==> result == Range(0, |d|)
      invariant j > 0 ==> result == trace[j - 1]
    {
      result := trace[j];
    }
  }

  /** The evidently intended `_solve_nearest_neighbor`: the value the
      generator returns, the shortest of the greedy routes it tried (the
      first of equally short ones). */
  method NearestNeighborBest(d: Table, closed: bool, budget: Budget) returns (result: seq<nat>)
    requires IsSquare(d)
    ensures |d| < 2 || StartsTried(budget, |d|) == 0 ==> result == Range(0, |d|)
    ensures |d| >= 2 && StartsTried(budget, |d|) > 0 ==>
              && ValidRoute(d, result)
              && (exists s: nat :: s < StartsTried(budget, |d|) && IsGreedyTour(d, result, s))
              && forall s: nat, r | s < StartsTried(budget, |d|) && IsGreedyTour(d, r, s) ::
                   RouteLength(d, result, closed) <= RouteLength(d, r, closed)
  {
    var trace;
    trace, result := NearestNeighborGen(d, closed, budget);
    if trace != [] {
      ghost var idx: nat :| idx < |trace| && trace[idx] == result && IsFirstMinimum(d, trace, idx, closed);
      assert IsGreedyTour(d, result, idx);
      forall s: nat, r | s < |trace| && IsGreedyTour(d, r, s)
        ensures RouteLength(d, result, closed) <= RouteLength(d, r, closed)
      {
        GreedyUnique(d, r, trace[s], s);
      }
    }
  }

  /** The evidently intended `_solve_nearest_neighbor_gen`: the clock is
      consulted before every start but the first, so start 0 is tried
      however little budget is left. Skipping the first check is the
      written loop run with the budget `Later(budget)`. */
  method NearestNeighborGenIntended(d: Table, closed: bool, budget: Budget) returns (trace: seq<seq<nat>>, best: seq<nat>)
    requires IsSquare(d)
    ensures |d| < 2 ==> trace == [] && best == Range(0, |d|)
    ensures |d| >= 2 ==> |trace| == StartsTried(Later(budget), |d|)
    ensures |d| >= 2 ==> 1 <= |trace| && StartsTried(budget, |d|) <= |trace|
    ensures forall s | 0 <= s < |trace| :: IsGreedyTour(d, trace[s], s)
    ensures |d| >= 2 ==> exists idx: nat :: idx < |trace| && trace[idx] == best && IsGreedyTour(d, best, idx)
                                             && IsFirstMinimum(d, trace, idx, closed)
  {
    trace, best := NearestNeighborGen(d, closed, Later(budget));
    assert |d| >= 2 ==> trace != [] by {
      if |d| >= 2 {
        assert !Expired(Later(budget), 0);
      }
    }
    if |d| >= 2 {
      assert StartsTried(budget, |d|) <= |trace| by {
        if StartsTried(budget, |d|) > 0 {
          assert !Expired(Later(budget), StartsTried(budget, |d|) - 1 + 1);
        }
      }
    }
  }

  /** `NoWorse` is a strict order on the candidates seen from one stop:
      of two different stops, at most one is no worse than the other. */
  lemma NoWorseAntisymmetric(d: Table, c: nat, x: nat, y: nat)
    requires IsSquare(d) && c < |d| && x < |d| && y < |d|
    requires NoWorse(d, c, x, y) && NoWorse(d, c, y, x)
    ensures x == y
  {
  }

  /** Two greedy tours from the same start agree on their first k stops. */
  lemma {:induction false} GreedyPrefix(d: Table, r1: seq<nat>, r2: seq<nat>, start: nat, k: nat)
    requires IsGreedyTour(d, r1, start) && IsGreedyTour(d, r2, start)
    requires 1 <= k <= |d|
    ensures |r1| == |r2| == |d|
    ensures r1[..k] == r2[..k]
    decreases k
  {
    PermutationBounds(r1, |d|);
    PermutationBounds(r2, |d|);
    if k > 1 {
      var j := k - 1;
      GreedyPrefix(d, r1, r2, start, j);
      GreedyNextAgrees(d, r1, r2, start, j);
      assert r1[..k] == r1[..j] + [r1[j]] && r2[..k] == r2[..j] + [r2[j]];
    }
  }

  /** Two greedy tours that agree on their first j stops agree on the next:
      each one's next stop is still unvisited in the other, and ties are
      broken the same way. */
  lemma GreedyNextAgrees(d: Table, r1: seq<nat>, r2: seq<nat>, start: nat, j: nat)
    requires IsGreedyTour(d, r1, start) && IsGreedyTour(d, r2, start)
    requires 1 <= j < |d| && |r1| == |r2| == |d| && r1[..j] == r2[..j]
    ensures r1[j] == r2[j]
  {
    var n := |d|;
    assert r1[j - 1] == r2[j - 1] by {
      assert r1[..j][j - 1] == r2[..j][j - 1];
    }
    var m1 := LaterPosition(r1, r2, n, j);
    var m2 := LaterPosition(r2, r1, n, j);
    assert NoWorse(d, r1[j - 1], r1[j], r1[m1]);
    assert NoWorse(d, r2[j - 1], r2[j], r2[m2]);
    NoWorseAntisymmetric(d, r1[j - 1], r1[j], r2[j]);
  }

  /** Where the j-th stop of r2 sits in r1, when the two permutations share
      their first j stops: at j or later. */
  lemma LaterPosition(r1: seq<nat>, r2: seq<nat>, n: nat, j: nat) returns (m: nat)
    requires IsPermutation(r1, n) && IsPermutation(r2, n)
    requires j < n && |r1| == |r2| == n && r1[..j] == r2[..j]
    ensures j <= m < n && r1[m] == r2[j]
  {
    PermutationBounds(r2, n);
    PermutationDistinct(r2, n);
    PermutationCovers(r1, n, r2[j]);
    forall t | 0 <= t < j
      ensures r1[t] == r2[t]
    {
      assert r1[..j][t] == r2[..j][t];
    }
    m :| 0 <= m < n && r1[m] == r2[j];
  }

  /** The greedy tour from a start is unique: whatever order `min` happens
      to break ties in is fixed by `NoWorse`, so each start yields exactly
      one candidate. */
  lemma GreedyUnique(d: Table, r1: seq<nat>, r2: seq<nat>, start: nat)
    requires IsGreedyTour(d, r1, start) && IsGreedyTour(d, r2, start)
    ensures r1 == r2
  {
    var n := |d|;
    PermutationBounds(r1, n);
    PermutationBounds(r2, n);
    if n > 0 {
      GreedyPrefix(d, r1, r2, start, n);
      assert r1 == r1[..n] && r2 == r2[..n];
    }
  }

  /** An open three-stop table on which the last start is the worst one:
      from 0 the greedy tour is 0-2-1 (length 3), from 1 it is 1-2-0
      (length 3), from 2 it is 2-0-1 (length 4). */
  ghost predicate IsLastStartTable(d: Table)
  {
    && |d| == 3 && IsSquare(d)
    && d[0][0] == 0.0 && d[0][1] == 3.0 && d[0][2] == 1.0
    && d[1][0] == 3.0 && d[1][1] == 0.0 && d[1][2] == 2.0
    && d[2][0] == 1.0 && d[2][1] == 2.0 && d[2][2] == 0.0
  }

  /** Such a table exists and is a distance table. */
  lemma LastStartTableExists() returns (d: Table)
    ensures IsLastStartTable(d) && IsDistanceTable(d)
  {
    d := [[0.0, 3.0, 1.0], [3.0, 0.0, 2.0], [1.0, 2.0, 0.0]];
  }

  lemma ValidOfThree(d: Table, r: seq<nat>)
    requires IsSquare(d) && |r| == 3 && r[0] < |d| && r[1] < |d| && r[2] < |d|
    ensures ValidRoute(d, r)
  {
    forall i | 0 <= i < 3
      ensures r[i] < |d|
    {
      if i == 0 {
      } else if i == 1 {
      }
    }
  }

  lemma PermutationOfThree(r: seq<nat>)
    requires multiset(r) == multiset([0, 1, 2])
    ensures IsPermutation(r, 3)
  {
    assert Range(0, 3) == [0, 1, 2];
  }

  /** A three-stop route is greedy as soon as its second stop is no worse
      than its third, seen from the first. */
  lemma GreedyOfThree(d: Table, r: seq<nat>)
    requires ValidRoute(d, r) && |r| == 3 && NoWorse(d, r[0], r[1], r[2])
    ensures IsGreedy(d, r)
  {
    forall i, m | 1 <= i <= m < |r|
      ensures NoWorse(d, r[i - 1], r[i], r[m])
    {
      if i < m {
        assert i == 1 && m == 2;
      }
    }
  }

  /** The greedy tour from start 0. */
  lemma LastStartTableFirstTour(d: Table)
    requires IsLastStartTable(d)
    ensures IsGreedyTour(d, [0, 2, 1], 0)
  {
    var g: seq<nat> := [0, 2, 1];
    assert multiset(g) == multiset([0, 1, 2]);
    PermutationOfThree(g);
    ValidOfThree(d, g);
    GreedyOfThree(d, g);
  }

  /** The greedy tour from start 2. */
  lemma LastStartTableLastTour(d: Table)
    requires IsLastStartTable(d)
    ensures IsGreedyTour(d, [2, 0, 1], 2)
  {
    var g: seq<nat> := [2, 0, 1];
    assert multiset(g) == multiset([0, 1, 2]);
    PermutationOfThree(g);
    ValidOfThree(d, g);
    GreedyOfThree(d, g);
  }

  lemma LastStartTableLengths(d: Table)
    requires IsLastStartTable(d)
    ensures ValidRoute(d, [0, 2, 1]) && ValidRoute(d, [2, 0, 1])
    ensures RouteLength(d, [0, 2, 1], false) == 3.0
    ensures RouteLength(d, [2, 0, 1], false) == 4.0
  {
    var g0: seq<nat> := [0, 2, 1];
    var g2: seq<nat> := [2, 0, 1];
    assert g0[..2] == [0, 2] && g0[..2][..1] == [0];
    assert g2[..2] == [2, 0] && g2[..2][..1] == [2];
    assert PathLength(d, [0, 2]) == 1.0;
    assert PathLength(d, [2, 0]) == 1.0;
    assert PathLength(d, g0) == PathLength(d, [0, 2]) + d[2][1];
    assert PathLength(d, g2) == PathLength(d, [2, 0]) + d[0][1];
  }

  /** On such a table, with no budget, `NearestNeighbor` returns the
      greedy tour from the last start, 2, of length 4, while the
      generator's own best candidate, the one from start 0, has length 3. */
  lemma LastStartIsNotBest(d: Table, r0: seq<nat>, r2: seq<nat>)
    requires IsLastStartTable(d)
    requires IsGreedyTour(d, r0, 0)
    requires IsGreedyTour(d, r2, StartsTried(Unlimited, |d|) - 1)
    ensures RouteLength(d, r0, false) == 3.0
    ensures RouteLength(d, r2, false) == 4.0
  {
    LastStartTableFirstTour(d);
    LastStartTableLastTour(d);
    LastStartTableLengths(d);
    assert StartsTried(Unlimited, 3) == 3;
    GreedyUnique(d, r0, [0, 2, 1], 0);
    GreedyUnique(d, r2, [2, 0, 1], 2);
  }
}
