/** First-improvement 2-opt (`_two_opt_gen` and `_two_opt`): the route
    list is improved in place by reversing slices of it. */
module LocalSearch {
  import opened Common
  import opened Distances
  import opened Tours

  /** The `1e-12` margin an exchange must beat, as an exact real. */
  const Eps: real := 0.000000000001

  /** `route[i : k + 1] = reversed(route[i : k + 1])` as a value. */
  function Reverse(s: seq<nat>, i: nat, k: nat): (r: seq<nat>)
    requires i <= k < |s|
    ensures |r| == |s|
    ensures forall j {:trigger r[j]} | 0 <= j < |s| && (j < i || k < j) :: r[j] == s[j]
    ensures forall j | i <= j <= k :: r[j] == s[i + k - j]
  {
    s[..i] + Reversed(s[i..k + 1]) + s[k + 1..]
  }

  /** A reversal rearranges the route and nothing more. */
  lemma ReverseMultiset(s: seq<nat>, i: nat, k: nat)
    requires i <= k < |s|
    ensures multiset(Reverse(s, i, k)) == multiset(s)
  {
    assert s == s[..i] + s[i..k + 1] + s[k + 1..];
    ReversedMultiset(s[i..k + 1]);
  }

  /** A reversal keeps a route's indices inside the table. */
  lemma ReverseValid(d: Table, s: seq<nat>, i: nat, k: nat)
    requires ValidRoute(d, s) && i <= k < |s|
    ensures ValidRoute(d, Reverse(s, i, k))
  {
  }

  /** The last `k` the inner loop reaches: the last index of a closed
      tour, the one before it of an open one (so that `route[k + 1]`
      exists). */
  function LastK(n: nat, closed: bool): int
  {
    if closed then n - 1 else n - 2
  }

  /** A pair the scan evaluates. `i` starts at 1 for a closed tour; for an
      open one it starts at 0, but then `a is None` and the pair is
      skipped, so in both cases only `1 <= i` can lead to a reversal. */
  predicate IsMove(n: nat, closed: bool, i: nat, k: nat)
  {
    1 <= i < k && k <= LastK(n, closed)
  }

  /** The stop after position k: `route[(k + 1) % n]` when closed,
      `route[k + 1]` when open. Only the last position of a closed tour
      wraps round to the first stop (`NextIndex`). */
  function Successor(s: seq<nat>, closed: bool, k: nat): (e: nat)
    requires IsMove(|s|, closed, 1, k) || (closed && k < |s|)
  {
    if k + 1 == |s| then s[0] else s[k + 1]
  }

  lemma NextIndex(k: nat, n: nat)
    requires k < n
    ensures (k + 1) % n == if k + 1 == n then 0 else k + 1
  {
  }

  /** `Successor` is the stop the loop reads: `route[(k + 1) % n]` for a
      closed tour, `route[k + 1]` for an open one. */
  lemma SuccessorIndex(s: seq<nat>, closed: bool, k: nat)
    requires IsMove(|s|, closed, 1, k) || (closed && k < |s|)
    ensures Successor(s, closed, k) == if closed then s[(k + 1) % |s|] else s[k + 1]
  {
    NextIndex(k, |s|);
  }

  /** The two edges the exchange removes. */
  function Before(d: Table, s: seq<nat>, closed: bool, i: nat, k: nat): (len: real)
    requires ValidRoute(d, s) && IsMove(|s|, closed, i, k)
    ensures IsNonNegative(d) ==> len >= 0.0
  {
    d[s[i - 1]][s[i]] + d[s[k]][Successor(s, closed, k)]
  }

  /** The two edges the exchange adds. */
  function After(d: Table, s: seq<nat>, closed: bool, i: nat, k: nat): (len: real)
    requires ValidRoute(d, s) && IsMove(|s|, closed, i, k)
    ensures IsNonNegative(d) ==> len >= 0.0
  {
    d[s[i - 1]][s[k]] + d[s[i]][Successor(s, closed, k)]
  }

  /** `after + 1e-12 < before`: the test that triggers a reversal. */
  predicate Improves(d: Table, s: seq<nat>, closed: bool, i: nat, k: nat)
    requires ValidRoute(d, s) && IsMove(|s|, closed, i, k)
  {
    After(d, s, closed, i, k) + Eps < Before(d, s, closed, i, k)
  }

  /** On a symmetric table the test holds exactly when the reversal makes
      the tour shorter by more than the margin. */
  lemma ImprovesIffShorter(d: Table, s: seq<nat>, closed: bool, i: nat, k: nat)
    requires IsSquare(d) && IsSymmetric(d) && ValidRoute(d, s) && IsMove(|s|, closed, i, k)
    ensures ValidRoute(d, Reverse(s, i, k))
    ensures Improves(d, s, closed, i, k) <==> RouteLength(d, Reverse(s, i, k), closed) + Eps < RouteLength(d, s, closed)
  {
    ReversalDelta(d, s, closed, i, k);
  }

  /** A 2-opt local optimum: no pair the scan evaluates would trigger a
      reversal. */
  ghost predicate IsTwoOptOptimal(d: Table, s: seq<nat>, closed: bool)
  {
    ValidRoute(d, s) && forall i: nat, k: nat {:trigger Improves(d, s, closed, i, k)} | IsMove(|s|, closed, i, k) :: !Improves(d, s, closed, i, k)
  }

  /** `t` is `s` after one reversal the scan applies. */
  ghost predicate IsStep(d: Table, closed: bool, s: seq<nat>, t: seq<nat>)
  {
    && ValidRoute(d, s)
    && exists i: nat, k: nat {:trigger Reverse(s, i, k)} | IsMove(|s|, closed, i, k) :: Improves(d, s, closed, i, k) && t == Reverse(s, i, k)
  }

  /** The routes the generator yields, each one step after the previous
      one (the first one step after the initial route). */
  ghost predicate IsImprovingChain(d: Table, closed: bool, s0: seq<nat>, trace: seq<seq<nat>>)
    decreases |trace|
  {
    trace != [] ==>
      && IsImprovingChain(d, closed, s0, trace[..|trace| - 1])
      && IsStep(d, closed, Prior(s0, trace, |trace| - 1), trace[|trace| - 1])
  }

  /** Every link of a chain is one step. */
  lemma {:induction false} ChainStep(d: Table, closed: bool, s0: seq<nat>, trace: seq<seq<nat>>, j: nat)
    requires IsImprovingChain(d, closed, s0, trace) && j < |trace|
    ensures IsStep(d, closed, Prior(s0, trace, j), trace[j])
    decreases |trace|
  {
    if j < |trace| - 1 {
      var front := trace[..|trace| - 1];
      ChainStep(d, closed, s0, front, j);
      assert front[j] == trace[j];
      assert Prior(s0, front, j) == Prior(s0, trace, j);
    }
  }

  /** The route the j-th yielded one was obtained from. */
  function Prior(s0: seq<nat>, trace: seq<seq<nat>>, j: nat): seq<nat>
    requires j <= |trace|
  {
    if j == 0 then s0 else trace[j - 1]
  }

  /** Three paths joined end to end. */
  lemma PathLengthJoin3(d: Table, a: seq<nat>, b: seq<nat>, c: seq<nat>)
    requires ValidRoute(d, a) && ValidRoute(d, b) && ValidRoute(d, c)
    requires a != [] && b != [] && c != []
    ensures ValidRoute(d, a + b + c)
    ensures PathLength(d, a + b + c)
         == PathLength(d, a) + d[a[|a| - 1]][b[0]] + PathLength(d, b) + d[b[|b| - 1]][c[0]] + PathLength(d, c)
  {
    PathLengthAppend(d, a, b);
    PathLengthAppend(d, a + b, c);
  }

  /** Replacing the middle one of three paths by one as long, with its
      ends swapped, swaps the two joining edges. */
  lemma PathLengthSwapMiddle(d: Table, a: seq<nat>, b: seq<nat>, b': seq<nat>, c: seq<nat>)
    requires ValidRoute(d, a) && ValidRoute(d, b) && ValidRoute(d, b') && ValidRoute(d, c)
    requires a != [] && b != [] && c != [] && |b'| == |b|
    requires b'[0] == b[|b| - 1] && b'[|b| - 1] == b[0] && PathLength(d, b') == PathLength(d, b)
    ensures ValidRoute(d, a + b' + c)
    ensures PathLength(d, a + b' + c)
         == PathLength(d, a + b + c)
            - d[a[|a| - 1]][b[0]] - d[b[|b| - 1]][c[0]]
            + d[a[|a| - 1]][b[|b| - 1]] + d[b[0]][c[0]]
  {
    assert b'[|b'| - 1] == b[0];
    PathLengthJoin3(d, a, b, c);
    PathLengthJoin3(d, a, b', c);
  }

  /** Reversing the middle one of three paths swaps the two joining
      edges for the ones to its other ends. */
  lemma PathLengthReverseMiddle(d: Table, a: seq<nat>, b: seq<nat>, c: seq<nat>)
    requires IsSquare(d) && IsSymmetric(d) && ValidRoute(d, a) && ValidRoute(d, b) && ValidRoute(d, c)
    requires a != [] && b != [] && c != []
    ensures ValidRoute(d, a + Reversed(b) + c)
    ensures PathLength(d, a + Reversed(b) + c)
         == PathLength(d, a + b + c)
            - d[a[|a| - 1]][b[0]] - d[b[|b| - 1]][c[0]]
            + d[a[|a| - 1]][b[|b| - 1]] + d[b[0]][c[0]]
  {
    ReversedEnds(b);
    PathLengthReversed(d, b);
    PathLengthSwapMiddle(d, a, b, Reversed(b), c);
  }

  /** Reversing the tail of a closed tour: the edge into it and the
      closing edge change. */
  lemma PathLengthReverseTail(d: Table, a: seq<nat>, b: seq<nat>)
    requires IsSquare(d) && IsSymmetric(d) && ValidRoute(d, a) && ValidRoute(d, b)
    requires a != [] && b != []
    ensures ValidRoute(d, a + Reversed(b)) && ValidRoute(d, a + b)
    ensures RouteLength(d, a + Reversed(b), true)
         == RouteLength(d, a + b, true)
            - d[a[|a| - 1]][b[0]] - d[b[|b| - 1]][a[0]]
            + d[a[|a| - 1]][b[|b| - 1]] + d[b[0]][a[0]]
  {
    var rb := Reversed(b);
    ReversedEnds(b);
    PathLengthReversed(d, b);
    PathLengthAppend(d, a, b);
    PathLengthAppend(d, a, rb);
    assert (a + b)[0] == a[0] && (a + rb)[0] == a[0];
    assert (a + b)[|a + b| - 1] == b[|b| - 1] && (a + rb)[|a + rb| - 1] == b[0];
  }

  /** Reversing a slice that ends before the last stop: only the two
      edges at its ends change. */
  lemma ReversalDeltaInner(d: Table, s: seq<nat>, closed: bool, i: nat, k: nat)
    requires IsSquare(d) && IsSymmetric(d) && ValidRoute(d, s) && IsMove(|s|, closed, i, k)
    requires k + 1 < |s|
    ensures ValidRoute(d, Reverse(s, i, k))
    ensures RouteLength(d, Reverse(s, i, k), closed)
         == RouteLength(d, s, closed) - Before(d, s, closed, i, k) + After(d, s, closed, i, k)
  {
    var a, b, c := s[..i], s[i..k + 1], s[k + 1..];
    var r := Reverse(s, i, k);
    assert s == a + b + c;
    assert r == a + Reversed(b) + c;
    assert ValidRoute(d, a) && ValidRoute(d, b) && ValidRoute(d, c);
    assert a[|a| - 1] == s[i - 1] && b[0] == s[i] && b[|b| - 1] == s[k] && c[0] == s[k + 1];
    assert Successor(s, closed, k) == s[k + 1];
    assert r[0] == s[0] && r[|r| - 1] == s[|s| - 1];
    PathLengthReverseMiddle(d, a, b, c);
  }

  /** Reversing the slice that ends at the last stop of a closed tour. */
  lemma ReversalDeltaWrap(d: Table, s: seq<nat>, i: nat, k: nat)
    requires IsSquare(d) && IsSymmetric(d) && ValidRoute(d, s) && IsMove(|s|, true, i, k)
    requires k + 1 == |s|
    ensures ValidRoute(d, Reverse(s, i, k))
    ensures RouteLength(d, Reverse(s, i, k), true)
         == RouteLength(d, s, true) - Before(d, s, true, i, k) + After(d, s, true, i, k)
  {
    var a, b := s[..i], s[i..];
    assert s == a + b;
    assert Reverse(s, i, k) == a + Reversed(b);
    assert ValidRoute(d, a) && ValidRoute(d, b);
    assert a[0] == s[0] && a[|a| - 1] == s[i - 1] && b[0] == s[i] && b[|b| - 1] == s[k];
    assert Successor(s, true, k) == s[0];
    PathLengthReverseTail(d, a, b);
  }

  /** With a symmetric table, a reversal changes the tour length by
      exactly `after - before`. */
  lemma ReversalDelta(d: Table, s: seq<nat>, closed: bool, i: nat, k: nat)
    requires IsSquare(d) && IsSymmetric(d) && ValidRoute(d, s) && IsMove(|s|, closed, i, k)
    ensures ValidRoute(d, Reverse(s, i, k))
    ensures RouteLength(d, Reverse(s, i, k), closed)
         == RouteLength(d, s, closed) - Before(d, s, closed, i, k) + After(d, s, closed, i, k)
  {
    if k + 1 < |s| {
      ReversalDeltaInner(d, s, closed, i, k);
    } else {
      ReversalDeltaWrap(d, s, i, k);
    }
  }

  /** One step keeps a permutation that starts where it started and makes
      the tour shorter by more than the margin. */
  lemma StepShortens(d: Table, closed: bool, s: seq<nat>, t: seq<nat>)
    requires IsSquare(d) && IsSymmetric(d) && IsStep(d, closed, s, t)
    ensures ValidRoute(d, t) && multiset(t) == multiset(s)
    ensures |t| == |s| && t[0] == s[0]
    ensures RouteLength(d, t, closed) + Eps < RouteLength(d, s, closed)
  {
    var i: nat, k: nat :| IsMove(|s|, closed, i, k) && Improves(d, s, closed, i, k) && t == Reverse(s, i, k);
    ImprovingReversal(d, closed, s, i, k);
  }

  /** The reversal of an improving pair is a step: a permutation of the
      route with the same first stop, shorter by more than the margin. */
  lemma ImprovingReversal(d: Table, closed: bool, s: seq<nat>, i: nat, k: nat)
    requires IsSquare(d) && IsSymmetric(d) && ValidRoute(d, s) && IsMove(|s|, closed, i, k)
    requires Improves(d, s, closed, i, k)
    ensures IsStep(d, closed, s, Reverse(s, i, k))
    ensures ValidRoute(d, Reverse(s, i, k)) && multiset(Reverse(s, i, k)) == multiset(s)
    ensures Reverse(s, i, k)[0] == s[0]
    ensures RouteLength(d, Reverse(s, i, k), closed) + Eps < RouteLength(d, s, closed)
  {
    ReverseMultiset(s, i, k);
    ReversalDelta(d, s, closed, i, k);
  }

  /** The j-th yielded route is a permutation of the initial one with the
      same first stop, shorter by more than j + 1 margins. */
  lemma {:induction false} ChainElement(d: Table, closed: bool, s0: seq<nat>, trace: seq<seq<nat>>, j: nat)
    requires IsSquare(d) && IsSymmetric(d) && ValidRoute(d, s0) && s0 != []
    requires IsImprovingChain(d, closed, s0, trace) && j < |trace|
    ensures ValidRoute(d, trace[j]) && multiset(trace[j]) == multiset(s0)
    ensures |trace[j]| == |s0| && trace[j][0] == s0[0]
    ensures RouteLength(d, trace[j], closed) + (j + 1) as real * Eps < RouteLength(d, s0, closed)
    decreases j
  {
    ChainStep(d, closed, s0, trace, j);
    if j > 0 {
      ChainElement(d, closed, s0, trace, j - 1);
    }
    StepShortens(d, closed, Prior(s0, trace, j), trace[j]);
  }

  /** Along the chain of yielded routes every route is a permutation of
      the initial one with the same first stop, and the j-th one is
      shorter by more than j + 1 margins. */
  lemma ChainShortens(d: Table, closed: bool, s0: seq<nat>, trace: seq<seq<nat>>)
    requires IsSquare(d) && IsSymmetric(d) && ValidRoute(d, s0) && s0 != []
    requires IsImprovingChain(d, closed, s0, trace)
    ensures forall j | 0 <= j < |trace| :: ValidRoute(d, trace[j]) && multiset(trace[j]) == multiset(s0)
    ensures forall j | 0 <= j < |trace| :: |trace[j]| == |s0| && trace[j][0] == s0[0]
    ensures forall j | 0 <= j < |trace| :: RouteLength(d, trace[j], closed) + (j + 1) as real * Eps < RouteLength(d, s0, closed)
  {
    forall j | 0 <= j < |trace|
      ensures ValidRoute(d, trace[j]) && multiset(trace[j]) == multiset(s0)
      ensures |trace[j]| == |s0| && trace[j][0] == s0[0]
      ensures RouteLength(d, trace[j], closed) + (j + 1) as real * Eps < RouteLength(d, s0, closed)
    {
      ChainElement(d, closed, s0, trace, j);
    }
  }

  /** Below four stops there is nothing to gain: an open route has no
      pair to evaluate, and in a closed triangle the exchange swaps two
      edges for the same two. */
  lemma SmallRoutesOptimal(d: Table, s: seq<nat>, closed: bool)
    requires IsSquare(d) && IsSymmetric(d) && ValidRoute(d, s) && |s| < 4
    ensures IsTwoOptOptimal(d, s, closed)
  {
    forall i: nat, k: nat | IsMove(|s|, closed, i, k)
      ensures !Improves(d, s, closed, i, k)
    {
      assert closed && i == 1 && k == 2 && |s| == 3;
      assert Successor(s, closed, k) == s[0];
    }
  }

  /** The number the outer loop drives down: the tour length counted in
      margins. Every reversal lowers it by at least one. */
  function Measure(d: Table, s: seq<nat>, closed: bool): nat
    requires ValidRoute(d, s) && IsNonNegative(d)
  {
    (RouteLength(d, s, closed) * 1000000000000.0).Floor
  }

  lemma MeasureDecreases(d: Table, s: seq<nat>, t: seq<nat>, closed: bool)
    requires ValidRoute(d, s) && ValidRoute(d, t) && IsNonNegative(d)
    requires RouteLength(d, t, closed) + Eps < RouteLength(d, s, closed)
    ensures Measure(d, t, closed) < Measure(d, s, closed)
  {
  }

  /** `route[i : k + 1] = reversed(route[i : k + 1])`, in place. */
  method ReverseSlice(route: array<nat>, i: nat, k: nat)
    requires i <= k < route.Length
    modifies route
    ensures route[..] == Reverse(old(route[..]), i, k)
  {
    var slice := route[i..k + 1];
    forall j | i <= j <= k {
      route[j] := slice[k - j];
    }
  }

  /** What the generator has yielded so far when the route stands at
      `current`: a chain of steps from `s0` that ends at `current`. */
  ghost predicate IsTraceTo(d: Table, closed: bool, s0: seq<nat>, trace: seq<seq<nat>>, current: seq<nat>)
  {
    IsImprovingChain(d, closed, s0, trace) && Prior(s0, trace, |trace|) == current
  }

  /** The route a trace ends at holds the stops of the initial one with
      the same first stop. */
  lemma TraceKeeps(d: Table, closed: bool, s0: seq<nat>, trace: seq<seq<nat>>, current: seq<nat>)
    requires IsSquare(d) && IsSymmetric(d) && ValidRoute(d, s0)
    requires IsTraceTo(d, closed, s0, trace, current)
    ensures multiset(current) == multiset(s0) && |current| == |s0|
    ensures s0 != [] ==> current[0] == s0[0]
  {
    if trace != [] {
      ChainStep(d, closed, s0, trace, 0);
      ChainElement(d, closed, s0, trace, |trace| - 1);
    }
  }

  /** A chain extended by one step from its last route is a chain. */
  lemma ChainAppend(d: Table, closed: bool, s0: seq<nat>, trace: seq<seq<nat>>, next: seq<nat>)
    requires IsImprovingChain(d, closed, s0, trace)
    requires IsStep(d, closed, Prior(s0, trace, |trace|), next)
    ensures IsImprovingChain(d, closed, s0, trace + [next])
  {
    var t := trace + [next];
    assert t[..|t| - 1] == trace;
    assert Prior(s0, t, |trace|) == Prior(s0, trace, |trace|);
  }

  /** No pair before `(i, k)` in scan order improves `s`. */
  ghost predicate ScannedBefore(d: Table, s: seq<nat>, closed: bool, i: nat, k: nat)
  {
    && ValidRoute(d, s)
    && forall i': nat, k': nat {:trigger Improves(d, s, closed, i', k')} | IsMove(|s|, closed, i', k') && (i' < i || (i' == i && k' < k)) :: !Improves(d, s, closed, i', k')
  }

  /** Probing one more pair that does not improve extends the scan. */
  lemma ScannedNext(d: Table, s: seq<nat>, closed: bool, i: nat, k: nat)
    requires ScannedBefore(d, s, closed, i, k)
    requires IsMove(|s|, closed, i, k) ==> !Improves(d, s, closed, i, k)
    ensures ScannedBefore(d, s, closed, i, k + 1)
  {
  }

  /** Once `i` passes the last index a move can start at, the scan has
      covered every pair. */
  lemma ScannedAll(d: Table, s: seq<nat>, closed: bool, i: nat)
    requires ScannedBefore(d, s, closed, i, 0) && |s| <= i + 1
    ensures IsTwoOptOptimal(d, s, closed)
  {
  }

  /** A row is covered when k has run past the last index. */
  lemma ScannedRow(d: Table, s: seq<nat>, closed: bool, i: nat, k: nat)
    requires ScannedBefore(d, s, closed, i, k) && LastK(|s|, closed) < k
    ensures ScannedBefore(d, s, closed, i + 1, 0)
  {
  }

  /** No pair of row i comes before `(i, i + 1)`. */
  lemma ScannedRowStart(d: Table, s: seq<nat>, closed: bool, i: nat)
    requires ScannedBefore(d, s, closed, i, 0)
    ensures ScannedBefore(d, s, closed, i, i + 1)
  {
  }

  /** The state of `_two_opt_gen` between two probes of its scan: the
      route list as it stands, the clock checks made so far, the
      `improved` flag of the current pass, whether the budget stopped the
      search, and the copies yielded so far. */
  datatype Scan = Scan(route: seq<nat>, checks: nat, improved: bool, stopped: bool, yielded: seq<seq<nat>>)

  /** One probe of the `for k` loop at the pair (i, k), once the clock
      has let it through: skip the pair when `i == 0` (`a is None`),
      otherwise reverse and yield a copy when the pair gains more than the
      margin; either way the clock check is counted. */
  function Probe(d: Table, closed: bool, i: nat, k: nat, st: Scan): (r: Scan)
    requires ValidRoute(d, st.route) && i < k <= LastK(|st.route|, closed)
    ensures ValidRoute(d, r.route) && |r.route| == |st.route|
  {
    if i > 0 && Improves(d, st.route, closed, i, k) then
      var t := Reverse(st.route, i, k);
      ReverseValid(d, st.route, i, k);
      Scan(t, st.checks + 1, true, st.stopped, st.yielded + [t])
    else
      st.(checks := st.checks + 1)
  }

  /** The rest of a pass from the pair (i, k) of the `for k` loop on:
      check the clock, probe the pair, and go on with the next pair of
      the row on the route as it then stands; after the last pair of the
      row the pass goes on with the next row. */
  function PassAt(d: Table, closed: bool, budget: Budget, i: nat, k: nat, st: Scan): (r: Scan)
    requires ValidRoute(d, st.route) && i < k <= |st.route|
    ensures ValidRoute(d, r.route) && |r.route| == |st.route|
    decreases |st.route| - i, |st.route| - k
  {
    if k > LastK(|st.route|, closed) then PassScan(d, closed, budget, i + 1, st)
    else if Expired(budget, st.checks) then st.(stopped := true)
    else PassAt(d, closed, budget, i, k + 1, Probe(d, closed, i, k, st))
  }

  /** The rest of a pass from row i of the `for i` loop on: check the
      clock, then scan the row from its first pair `(i, i + 1)`. */
  function PassScan(d: Table, closed: bool, budget: Budget, i: nat, st: Scan): (r: Scan)
    requires ValidRoute(d, st.route)
    ensures ValidRoute(d, r.route) && |r.route| == |st.route|
    decreases |st.route| - i, |st.route| - i
  {
    if i + 1 >= |st.route| then st
    else if Expired(budget, st.checks) then st.(stopped := true)
    else PassAt(d, closed, budget, i, i + 1, st.(checks := st.checks + 1))
  }

  /** The first row of a pass: 1 for a closed tour, which keeps
      `route[0]` fixed, 0 for an open one. */
  function FirstRow(closed: bool): nat
  {
    if closed then 1 else 0
  }

  /** The `while improved` loop: passes, each starting with `improved`
      cleared, until a pass reverses nothing or the budget stops the
      search. */
  function Search(d: Table, closed: bool, budget: Budget, st: Scan): (r: Scan)
    requires IsDistanceTable(d) && ValidRoute(d, st.route)
    ensures ValidRoute(d, r.route) && |r.route| == |st.route|
    decreases Measure(d, st.route, closed)
  {
    var pass := PassScan(d, closed, budget, FirstRow(closed), st.(improved := false));
    if pass.stopped || !pass.improved then pass
    else
      PassShortens(d, closed, budget, st, pass);
      Search(d, closed, budget, pass)
  }

  /** `_two_opt_gen` on the route `s`: nothing below four stops;
      otherwise the search from `improved = True`, no clock check made
      and nothing yielded. `yielded` is what the generator yields,
      `stopped` whether the budget ended it, and `route` the list it
      returns. */
  function TwoOptRun(d: Table, closed: bool, budget: Budget, s: seq<nat>): (r: Scan)
    requires IsDistanceTable(d) && ValidRoute(d, s)
    ensures ValidRoute(d, r.route) && |r.route| == |s|
  {
    if |s| < 4 then Scan(s, 0, false, false, [])
    else Search(d, closed, budget, Scan(s, 0, true, false, []))
  }

  /** How a scan state `r` reached from `st` relates to it: the route
      changes only once `improved` is set, which stays set; without a
      budget nothing stops the scan; the tour never grows, and shrinks by
      more than the margin once `improved` has been set on the way. */
  ghost predicate Advances(d: Table, closed: bool, budget: Budget, st: Scan, r: Scan)
    requires ValidRoute(d, st.route) && ValidRoute(d, r.route)
  {
    && (!r.improved ==> r.route == st.route)
    && (st.improved ==> r.improved)
    && (budget.Unlimited? ==> r.stopped == st.stopped)
    && RouteLength(d, r.route, closed) <= RouteLength(d, st.route, closed)
    && (!st.improved && r.improved ==> RouteLength(d, r.route, closed) + Eps < RouteLength(d, st.route, closed))
  }

  /** One probe advances the scan, and the pass goes on from the next
      pair. */
  lemma ProbeAdvances(d: Table, closed: bool, budget: Budget, i: nat, k: nat, st: Scan)
    requires ValidRoute(d, st.route) && IsSymmetric(d) && i < k <= LastK(|st.route|, closed) && !Expired(budget, st.checks)
    ensures Advances(d, closed, budget, st, Probe(d, closed, i, k, st))
    ensures PassAt(d, closed, budget, i, k, st) == PassAt(d, closed, budget, i, k + 1, Probe(d, closed, i, k, st))
  {
    if i > 0 && Improves(d, st.route, closed, i, k) {
      ImprovingReversal(d, closed, st.route, i, k);
    }
  }

  /** The rest of a pass from a pair advances the scan. */
  lemma {:induction false} PassAtAdvances(d: Table, closed: bool, budget: Budget, i: nat, k: nat, st: Scan)
    requires ValidRoute(d, st.route) && IsSymmetric(d) && i < k <= |st.route|
    ensures Advances(d, closed, budget, st, PassAt(d, closed, budget, i, k, st))
    decreases |st.route| - i, |st.route| - k, 1
  {
    if k > LastK(|st.route|, closed) {
      PassScanAdvances(d, closed, budget, i + 1, st);
    } else if !Expired(budget, st.checks) {
      PassAtAdvancesProbe(d, closed, budget, i, k, st);
    }
  }

  /** The same when the pass probes (i, k) before going on. */
  lemma {:induction false} PassAtAdvancesProbe(d: Table, closed: bool, budget: Budget, i: nat, k: nat, st: Scan)
    requires ValidRoute(d, st.route) && IsSymmetric(d) && i < k <= LastK(|st.route|, closed) && !Expired(budget, st.checks)
    ensures Advances(d, closed, budget, st, PassAt(d, closed, budget, i, k, st))
    decreases |st.route| - i, |st.route| - k, 0
  {
    ProbeAdvances(d, closed, budget, i, k, st);
    PassAtAdvances(d, closed, budget, i, k + 1, Probe(d, closed, i, k, st));
  }

  /** The rest of a pass from a row advances the scan. */
  lemma {:induction false} PassScanAdvances(d: Table, closed: bool, budget: Budget, i: nat, st: Scan)
    requires ValidRoute(d, st.route) && IsSymmetric(d)
    ensures Advances(d, closed, budget, st, PassScan(d, closed, budget, i, st))
    decreases |st.route| - i, |st.route| - i, 2
  {
    if i + 1 < |st.route| && !Expired(budget, st.checks) {
      PassAtAdvances(d, closed, budget, i, i + 1, st.(checks := st.checks + 1));
      PassScanRow(d, closed, budget, i, st);
    }
  }

  /** A pass that reverses something lowers the measure: the outer loop
      ends. */
  lemma PassShortens(d: Table, closed: bool, budget: Budget, st: Scan, pass: Scan)
    requires IsDistanceTable(d) && ValidRoute(d, st.route)
    requires pass == PassScan(d, closed, budget, FirstRow(closed), st.(improved := false)) && pass.improved
    ensures Measure(d, pass.route, closed) < Measure(d, st.route, closed)
  {
    PassScanAdvances(d, closed, budget, FirstRow(closed), st.(improved := false));
    MeasureDecreases(d, st.route, pass.route, closed);
  }

  /** The passes never lengthen the route, and without a budget are
      never stopped. */
  lemma {:induction false} SearchKeeps(d: Table, closed: bool, budget: Budget, st: Scan)
    requires IsDistanceTable(d) && ValidRoute(d, st.route)
    ensures var r := Search(d, closed, budget, st);
            && RouteLength(d, r.route, closed) <= RouteLength(d, st.route, closed)
            && (budget.Unlimited? ==> r.stopped == st.stopped)
    decreases Measure(d, st.route, closed)
  {
    var st' := st.(improved := false);
    PassScanAdvances(d, closed, budget, FirstRow(closed), st');
    var pass := PassScan(d, closed, budget, FirstRow(closed), st');
    if !pass.stopped && pass.improved {
      PassShortens(d, closed, budget, st, pass);
      SearchKeeps(d, closed, budget, pass);
    }
  }

  /** A copy yielded by a probe is one improving reversal after the
      route it was made from. */
  lemma ProbeChain(d: Table, closed: bool, budget: Budget, i: nat, k: nat, st: Scan, s0: seq<nat>)
    requires ValidRoute(d, st.route) && i < k <= LastK(|st.route|, closed) && !Expired(budget, st.checks)
    requires IsTraceTo(d, closed, s0, st.yielded, st.route)
    ensures IsTraceTo(d, closed, s0, Probe(d, closed, i, k, st).yielded, Probe(d, closed, i, k, st).route)
    ensures PassAt(d, closed, budget, i, k, st) == PassAt(d, closed, budget, i, k + 1, Probe(d, closed, i, k, st))
  {
    if i > 0 && Improves(d, st.route, closed, i, k) {
      var t := Reverse(st.route, i, k);
      assert IsStep(d, closed, st.route, t);
      assert Prior(s0, st.yielded, |st.yielded|) == st.route;
      ChainAppend(d, closed, s0, st.yielded, t);
    }
  }

  /** Every copy the rest of a pass yields is one improving reversal
      after the route it was made from. */
  lemma {:induction false} PassAtChain(d: Table, closed: bool, budget: Budget, i: nat, k: nat, st: Scan, s0: seq<nat>)
    requires ValidRoute(d, st.route) && i < k <= |st.route|
    requires IsTraceTo(d, closed, s0, st.yielded, st.route)
    ensures IsTraceTo(d, closed, s0, PassAt(d, closed, budget, i, k, st).yielded, PassAt(d, closed, budget, i, k, st).route)
    decreases |st.route| - i, |st.route| - k, 1
  {
    if k > LastK(|st.route|, closed) {
      PassScanChain(d, closed, budget, i + 1, st, s0);
    } else if !Expired(budget, st.checks) {
      PassAtChainProbe(d, closed, budget, i, k, st, s0);
    }
  }

  /** The same when the pass probes (i, k) before going on. */
  lemma {:induction false} PassAtChainProbe(d: Table, closed: bool, budget: Budget, i: nat, k: nat, st: Scan, s0: seq<nat>)
    requires ValidRoute(d, st.route) && i < k <= LastK(|st.route|, closed) && !Expired(budget, st.checks)
    requires IsTraceTo(d, closed, s0, st.yielded, st.route)
    ensures IsTraceTo(d, closed, s0, PassAt(d, closed, budget, i, k, st).yielded, PassAt(d, closed, budget, i, k, st).route)
    decreases |st.route| - i, |st.route| - k, 0
  {
    ProbeChain(d, closed, budget, i, k, st, s0);
    PassAtChain(d, closed, budget, i, k + 1, Probe(d, closed, i, k, st), s0);
  }

  lemma {:induction false} PassScanChain(d: Table, closed: bool, budget: Budget, i: nat, st: Scan, s0: seq<nat>)
    requires ValidRoute(d, st.route)
    requires IsTraceTo(d, closed, s0, st.yielded, st.route)
    ensures IsTraceTo(d, closed, s0, PassScan(d, closed, budget, i, st).yielded, PassScan(d, closed, budget, i, st).route)
    decreases |st.route| - i, |st.route| - i, 2
  {
    if i + 1 < |st.route| && !Expired(budget, st.checks) {
      PassAtChain(d, closed, budget, i, i + 1, st.(checks := st.checks + 1), s0);
    }
  }

  lemma {:induction false} SearchChain(d: Table, closed: bool, budget: Budget, st: Scan, s0: seq<nat>)
    requires IsDistanceTable(d) && ValidRoute(d, st.route)
    requires IsTraceTo(d, closed, s0, st.yielded, st.route)
    ensures IsTraceTo(d, closed, s0, Search(d, closed, budget, st).yielded, Search(d, closed, budget, st).route)
    decreases Measure(d, st.route, closed)
  {
    var st' := st.(improved := false);
    PassScanChain(d, closed, budget, FirstRow(closed), st', s0);
    var pass := PassScan(d, closed, budget, FirstRow(closed), st');
    if !pass.stopped && pass.improved {
      PassShortens(d, closed, budget, st, pass);
      SearchChain(d, closed, budget, pass, s0);
    }
  }

  /** A pass that reverses nothing and is not stopped, from a pair all
      of whose predecessors in scan order gain nothing, ends at a local
      optimum (a pass that has already reversed something stays marked
      as improved, so the conclusion holds for it too). */
  lemma {:induction false} PassAtScanned(d: Table, closed: bool, budget: Budget, i: nat, k: nat, st: Scan)
    requires ValidRoute(d, st.route) && IsSymmetric(d) && i < k <= |st.route|
    requires st.improved || ScannedBefore(d, st.route, closed, i, k)
    ensures var r := PassAt(d, closed, budget, i, k, st);
            !r.improved && !r.stopped ==> IsTwoOptOptimal(d, r.route, closed)
    decreases |st.route| - i, |st.route| - k, 1
  {
    if st.improved {
      PassAtKeepsImproved(d, closed, budget, i, k, st);
    } else if k > LastK(|st.route|, closed) {
      ScannedRow(d, st.route, closed, i, k);
      PassScanScanned(d, closed, budget, i + 1, st);
    } else if !Expired(budget, st.checks) {
      PassAtScannedProbe(d, closed, budget, i, k, st);
    }
  }

  /** The same when the pass probes (i, k) before going on. */
  lemma {:induction false} PassAtScannedProbe(d: Table, closed: bool, budget: Budget, i: nat, k: nat, st: Scan)
    requires ValidRoute(d, st.route) && IsSymmetric(d) && i < k <= LastK(|st.route|, closed) && !Expired(budget, st.checks)
    requires !st.improved && ScannedBefore(d, st.route, closed, i, k)
    ensures var r := PassAt(d, closed, budget, i, k, st);
            !r.improved && !r.stopped ==> IsTwoOptOptimal(d, r.route, closed)
    decreases |st.route| - i, |st.route| - k, 0
  {
    var next := Probe(d, closed, i, k, st);
    ProbeScanned(d, closed, budget, i, k, st);
    PassAtScanned(d, closed, budget, i, k + 1, next);
    assert PassAt(d, closed, budget, i, k, st) == PassAt(d, closed, budget, i, k + 1, next);
  }

  /** Once a pass has reversed something, it stays marked as improved. */
  lemma PassAtKeepsImproved(d: Table, closed: bool, budget: Budget, i: nat, k: nat, st: Scan)
    requires ValidRoute(d, st.route) && IsSymmetric(d) && i < k <= |st.route| && st.improved
    ensures PassAt(d, closed, budget, i, k, st).improved
  {
    PassAtAdvances(d, closed, budget, i, k, st);
  }

  /** One probe either sets `improved` or extends the scan of the route
      by the pair; the pass goes on from the next pair. */
  lemma ProbeScanned(d: Table, closed: bool, budget: Budget, i: nat, k: nat, st: Scan)
    requires ValidRoute(d, st.route) && i < k <= LastK(|st.route|, closed) && !Expired(budget, st.checks)
    requires !st.improved && ScannedBefore(d, st.route, closed, i, k)
    ensures var r := Probe(d, closed, i, k, st);
            r.improved || ScannedBefore(d, r.route, closed, i, k + 1)
    ensures PassAt(d, closed, budget, i, k, st) == PassAt(d, closed, budget, i, k + 1, Probe(d, closed, i, k, st))
  {
    if !(i > 0 && Improves(d, st.route, closed, i, k)) {
      ScannedNext(d, st.route, closed, i, k);
    }
  }

  /** A pass that reverses nothing and is not stopped ends at a local
      optimum. */
  lemma {:induction false} PassScanScanned(d: Table, closed: bool, budget: Budget, i: nat, st: Scan)
    requires ValidRoute(d, st.route) && IsSymmetric(d)
    requires !st.improved && ScannedBefore(d, st.route, closed, i, 0)
    ensures var r := PassScan(d, closed, budget, i, st);
            !r.improved && !r.stopped ==> IsTwoOptOptimal(d, r.route, closed)
    decreases |st.route| - i, |st.route| - i, 2
  {
    if i + 1 >= |st.route| {
      ScannedAll(d, st.route, closed, i);
    } else if !Expired(budget, st.checks) {
      ScannedRowStart(d, st.route, closed, i);
      PassAtScanned(d, closed, budget, i, i + 1, st.(checks := st.checks + 1));
      PassScanRow(d, closed, budget, i, st);
    }
  }

  /** Before the last stop and before the budget runs out, a pass counts
      the row and scans it from its first pair. */
  lemma PassScanRow(d: Table, closed: bool, budget: Budget, i: nat, st: Scan)
    requires ValidRoute(d, st.route) && i + 1 < |st.route| && !Expired(budget, st.checks)
    ensures PassScan(d, closed, budget, i, st) == PassAt(d, closed, budget, i, i + 1, st.(checks := st.checks + 1))
  {
  }

  /** Unless the budget stops it, the search ends at a local optimum. */
  lemma {:induction false} SearchOptimal(d: Table, closed: bool, budget: Budget, st: Scan)
    requires IsDistanceTable(d) && ValidRoute(d, st.route)
    ensures var r := Search(d, closed, budget, st);
            !r.stopped ==> IsTwoOptOptimal(d, r.route, closed)
    decreases Measure(d, st.route, closed)
  {
    var st' := st.(improved := false);
    PassScanScanned(d, closed, budget, FirstRow(closed), st');
    var pass := PassScan(d, closed, budget, FirstRow(closed), st');
    if !pass.stopped && pass.improved {
      PassShortens(d, closed, budget, st, pass);
      SearchOptimal(d, closed, budget, pass);
    }
  }

  /** On a local optimum the rest of a pass reverses nothing. */
  lemma {:induction false} PassAtAtOptimum(d: Table, closed: bool, budget: Budget, i: nat, k: nat, st: Scan)
    requires IsDistanceTable(d) && IsTwoOptOptimal(d, st.route, closed) && i < k <= |st.route|
    ensures var r := PassAt(d, closed, budget, i, k, st);
            r.route == st.route && r.yielded == st.yielded && r.improved == st.improved
    decreases |st.route| - i, |st.route| - k
  {
    if k > LastK(|st.route|, closed) {
      PassScanAtOptimum(d, closed, budget, i + 1, st);
    } else if !Expired(budget, st.checks) {
      assert !(i > 0 && Improves(d, st.route, closed, i, k));
      PassAtAtOptimum(d, closed, budget, i, k + 1, Probe(d, closed, i, k, st));
    }
  }

  /** On a local optimum a pass reverses nothing. */
  lemma {:induction false} PassScanAtOptimum(d: Table, closed: bool, budget: Budget, i: nat, st: Scan)
    requires IsDistanceTable(d) && IsTwoOptOptimal(d, st.route, closed)
    ensures var r := PassScan(d, closed, budget, i, st);
            r.route == st.route && r.yielded == st.yielded && r.improved == st.improved
    decreases |st.route| - i, |st.route| - i
  {
    if i + 1 < |st.route| && !Expired(budget, st.checks) {
      PassAtAtOptimum(d, closed, budget, i, i + 1, st.(checks := st.checks + 1));
    }
  }

  /** What `_two_opt_gen` yields and returns: the yielded copies are a
      chain of improving reversals ending at the returned route; unless
      the budget stopped it, that route is a local optimum; started on a
      local optimum (in particular below four stops) it yields nothing
      and returns the route unchanged. */
  lemma TwoOptRunFacts(d: Table, closed: bool, budget: Budget, s: seq<nat>)
    requires IsDistanceTable(d) && ValidRoute(d, s)
    ensures var r := TwoOptRun(d, closed, budget, s);
            && IsTraceTo(d, closed, s, r.yielded, r.route)
            && (!r.stopped ==> IsTwoOptOptimal(d, r.route, closed))
            && (IsTwoOptOptimal(d, s, closed) ==> r.yielded == [] && r.route == s)
            && (|s| < 4 ==> r.yielded == [] && !r.stopped)
            && multiset(r.route) == multiset(s)
            && (s != [] ==> r.route[0] == s[0])
            && RouteLength(d, r.route, closed) <= RouteLength(d, s, closed)
            && (budget.Unlimited? ==> !r.stopped)
  {
    if |s| < 4 {
      SmallRoutesOptimal(d, s, closed);
    } else {
      var st := Scan(s, 0, true, false, []);
      SearchKeeps(d, closed, budget, st);
      SearchChain(d, closed, budget, st, s);
      var r := Search(d, closed, budget, st);
      TraceKeeps(d, closed, s, r.yielded, r.route);
      SearchOptimal(d, closed, budget, st);
      if IsTwoOptOptimal(d, s, closed) {
        PassScanAtOptimum(d, closed, budget, FirstRow(closed), st.(improved := false));
      }
    }
  }

  /** n stops all one unit apart. */
  function UniformTable(n: nat): (d: Table)
    ensures |d| == n && IsDistanceTable(d)
    ensures forall i, j | 0 <= i < n && 0 <= j < n :: d[i][j] == if i == j then 0.0 else 1.0
  {
    seq(n, i => seq(n, j => if i == j then 0.0 else 1.0))
  }

  /** When all stops are equally far apart every exchange swaps two edges
      for two edges as long, so the input order is already a local optimum
      and the search yields nothing, whatever the number of stops. */
  lemma UniformTableYieldsNothing(n: nat, closed: bool, budget: Budget)
    ensures ValidRoute(UniformTable(n), Range(0, n))
    ensures IsTwoOptOptimal(UniformTable(n), Range(0, n), closed)
    ensures TwoOptRun(UniformTable(n), closed, budget, Range(0, n)).yielded == []
  {
    var d, s := UniformTable(n), Range(0, n);
    forall i: nat, k: nat | IsMove(n, closed, i, k)
      ensures !Improves(d, s, closed, i, k)
    {
      var e := Successor(s, closed, k);
      assert e == 0 || e == k + 1;
      assert Before(d, s, closed, i, k) == 2.0;
    }
    TwoOptRunFacts(d, closed, budget, s);
  }

  /** What `TwoOptRunFacts` says about the final route alone, and that
      the last copy yielded is that route. */
  lemma TwoOptRouteFacts(d: Table, closed: bool, budget: Budget, s: seq<nat>)
    requires IsDistanceTable(d) && ValidRoute(d, s)
    ensures var r := TwoOptRun(d, closed, budget, s);
            && (r.yielded != [] ==> r.yielded[|r.yielded| - 1] == r.route)
            && multiset(r.route) == multiset(s)
            && (s != [] ==> r.route[0] == s[0])
            && RouteLength(d, r.route, closed) <= RouteLength(d, s, closed)
            && (budget.Unlimited? ==> IsTwoOptOptimal(d, r.route, closed))
  {
    TwoOptRunFacts(d, closed, budget, s);
  }

  /** The body of the inner loop for one pair with `a` present: compute
      `before` and `after` and reverse `route[i..k]` when the exchange
      gains more than the margin. */
  method TryMove(route: array<nat>, d: Table, closed: bool, i: nat, k: nat) returns (applied: bool)
    requires ValidRoute(d, route[..]) && IsMove(route.Length, closed, i, k)
    modifies route
    ensures applied == Improves(d, old(route[..]), closed, i, k)
    ensures applied ==> route[..] == Reverse(old(route[..]), i, k)
    ensures !applied ==> route[..] == old(route[..])
  {
    var n := route.Length;
    var a, b, c := route[i - 1], route[i], route[k];
    var e := if closed then route[(k + 1) % n] else route[k + 1];
    var before := d[a][b] + d[c][e];
    var after := d[a][c] + d[b][e];
    NextIndex(k, n);
    assert e == Successor(route[..], closed, k);
    applied := after + Eps < before;
    if applied {
      ReverseSlice(route, i, k);
    }
  }

  /** One pass through the body of the inner loop once the clock has let
      it through: count the clock check, skip the pair when `a is None`,
      otherwise try the exchange and yield a copy of the route when it is
      applied. */
  method ProbePair(route: array<nat>, d: Table, closed: bool, i: nat, k: nat, checks0: nat, improved0: bool, trace0: seq<seq<nat>>)
    returns (checks: nat, improved: bool, trace: seq<seq<nat>>)
    requires ValidRoute(d, route[..]) && i < k <= LastK(route.Length, closed)
    modifies route
    ensures var p := Probe(d, closed, i, k, Scan(old(route[..]), checks0, improved0, false, trace0));
            route[..] == p.route && checks == p.checks && improved == p.improved && trace == p.yielded
  {
    checks, improved, trace := checks0 + 1, improved0, trace0;
    if i > 0 {
      var applied := TryMove(route, d, closed, i, k);
      if applied {
        improved := true;
        trace := trace + [route[..]];
      }
    }
  }

  /** The inner `for k` loop of a pass, for one `i`: either the budget
      stops it, and the pass ends in the state it leaves, or the pass
      goes on with the next row from that state. */
  method ScanRow(route: array<nat>, d: Table, closed: bool, budget: Budget, i: nat, checks0: nat, improved0: bool, trace0: seq<seq<nat>>)
    returns (improved: bool, stopped: bool, checks: nat, trace: seq<seq<nat>>)
    requires ValidRoute(d, route[..]) && i + 1 < route.Length
    modifies route
    ensures ValidRoute(d, route[..])
    ensures var r := PassAt(d, closed, budget, i, i + 1, Scan(old(route[..]), checks0, improved0, false, trace0));
            && (stopped ==> route[..] == r.route && checks == r.checks && improved == r.improved && r.stopped && trace == r.yielded)
            && (!stopped ==> PassScan(d, closed, budget, i + 1, Scan(route[..], checks, improved, false, trace)) == r)
  {
    var n := route.Length;
    ghost var st := Scan(route[..], checks0, improved0, false, trace0);
    ghost var goal := PassAt(d, closed, budget, i, i + 1, st);
    improved, stopped, checks, trace := improved0, false, checks0, trace0;
    var kEnd := LastK(n, closed);
    for k := i + 1 to kEnd + 1
      invariant ValidRoute(d, st.route) && route[..] == st.route
      invariant checks == st.checks && improved == st.improved && !st.stopped && trace == st.yielded
      invariant PassAt(d, closed, budget, i, k, st) == goal
    {
      if Expired(budget, checks) {
        stopped := true;
        return;
      }
      checks, improved, trace := ProbePair(route, d, closed, i, k, checks, improved, trace);
      st := Probe(d, closed, i, k, st);
    }
    assert st == Scan(route[..], checks, improved, false, trace);
  }

  /** One pass of the `while improved` loop: the rows `i` in order, with
      a clock check before each. */
  method Pass(route: array<nat>, d: Table, closed: bool, budget: Budget, checks0: nat, trace0: seq<seq<nat>>)
    returns (improved: bool, stopped: bool, checks: nat, trace: seq<seq<nat>>)
    requires ValidRoute(d, route[..]) && route.Length >= 4
    modifies route
    ensures var r := PassScan(d, closed, budget, FirstRow(closed), Scan(old(route[..]), checks0, false, false, trace0));
            route[..] == r.route && checks == r.checks && improved == r.improved && stopped == r.stopped && trace == r.yielded
  {
    var n := route.Length;
    ghost var st := Scan(route[..], checks0, false, false, trace0);
    ghost var goal := PassScan(d, closed, budget, FirstRow(closed), st);
    improved, stopped, checks, trace := false, false, checks0, trace0;
    var iStart := if closed then 1 else 0;
    for i := iStart to n - 1
      invariant ValidRoute(d, st.route) && route[..] == st.route
      invariant checks == st.checks && improved == st.improved && !st.stopped && trace == st.yielded
      invariant PassScan(d, closed, budget, i, st) == goal
    {
      if Expired(budget, checks) {
        stopped := true;
        return;
      }
      checks := checks + 1;
      improved, stopped, checks, trace := ScanRow(route, d, closed, budget, i, checks, improved, trace);
      if stopped {
        return;
      }
      st := Scan(route[..], checks, improved, false, trace);
    }
  }

  /** `_two_opt_gen`: improves `route` in place and returns the copies it
      yields, one per reversal, and whether the budget cut the search
      short (the generator then returns the route as it stands). */
  method TwoOptGen(route: array<nat>, d: Table, closed: bool, budget: Budget) returns (trace: seq<seq<nat>>, stoppedEarly: bool)
    requires IsDistanceTable(d) && ValidRoute(d, route[..])
    modifies route
    ensures var r := TwoOptRun(d, closed, budget, old(route[..]));
            trace == r.yielded && stoppedEarly == r.stopped && route[..] == r.route
  {
    var n := route.Length;
    trace := [];
    stoppedEarly := false;
    if n < 4 {
      return;
    }
    ghost var st := Scan(route[..], 0, true, false, []);
    ghost var goal := Search(d, closed, budget, st);
    var checks := 0;
    var improved := true;
    while improved
      invariant ValidRoute(d, st.route) && route[..] == st.route
      invariant checks == st.checks && improved == st.improved && !st.stopped && trace == st.yielded
      invariant improved ==> Search(d, closed, budget, st) == goal
      invariant !improved ==> st == goal
      decreases Measure(d, st.route, closed), improved
    {
      ghost var before := st;
      var stopped;
      improved, stopped, checks, trace := Pass(route, d, closed, budget, checks, trace);
      st := PassScan(d, closed, budget, FirstRow(closed), st.(improved := false));
      if stopped {
        stoppedEarly := true;
        return;
      }
      if improved {
        PassShortens(d, closed, budget, before, st);
      } else {
        PassScanAdvances(d, closed, budget, FirstRow(closed), before.(improved := false));
      }
    }
  }

  /** `_two_opt`: drains the generator; the result is the last copy
      yielded, or the route list itself when nothing was yielded. */
  method TwoOpt(route: array<nat>, d: Table, closed: bool, budget: Budget) returns (result: seq<nat>)
    requires IsDistanceTable(d) && ValidRoute(d, route[..])
    modifies route
    ensures result == route[..] == TwoOptRun(d, closed, budget, old(route[..])).route
    ensures multiset(result) == multiset(old(route[..]))
    ensures RouteLength(d, result, closed) <= RouteLength(d, old(route[..]), closed)
    ensures route.Length > 0 ==> result[0] == old(route[0])
    ensures budget.Unlimited? ==> IsTwoOptOptimal(d, result, closed)
  {
    ghost var s0 := route[..];
    TwoOptRouteFacts(d, closed, budget, s0);
    var trace, _ := TwoOptGen(route, d, closed, budget);
    result := if trace == [] then route[..] else trace[|trace| - 1];
  }
}
