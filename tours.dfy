/** Tour evaluation (`_route_length`) and the facts about tour lengths that
    the solvers rely on: concatenation, reversal, rotation, and the
    first-minimum selection the exact solver performs. */
module Tours {
  import opened Common
  import opened Distances

  /** A route whose indices all address the table. */
  ghost predicate ValidRoute(d: Table, r: seq<nat>)
  {
    IsSquare(d) && forall i | 0 <= i < |r| :: r[i] < |d|
  }

  /** The open part of a tour: `d[r[i]][r[i + 1]]` summed for i from 0
      upwards, in the order the loop accumulates it. */
  function PathLength(d: Table, r: seq<nat>): (len: real)
    requires ValidRoute(d, r)
    ensures IsNonNegative(d) ==> len >= 0.0
    decreases |r|
  {
    if |r| < 2 then 0.0 else PathLength(d, r[..|r| - 1]) + d[r[|r| - 2]][r[|r| - 1]]
  }

  /** `_route_length`: 0 below two stops; otherwise the path, plus the
      edge from the last stop back to the first when the tour is closed. */
  function RouteLength(d: Table, r: seq<nat>, closed: bool): (len: real)
    requires ValidRoute(d, r)
    ensures |r| < 2 ==> len == 0.0
    ensures IsNonNegative(d) ==> len >= 0.0
    ensures !closed ==> len == PathLength(d, r)
  {
    if |r| < 2 then 0.0
    else PathLength(d, r) + if closed then d[r[|r| - 1]][r[0]] else 0.0
  }

  /** Joining two paths adds exactly the one edge between them. */
  lemma {:induction false} PathLengthAppend(d: Table, a: seq<nat>, b: seq<nat>)
    requires ValidRoute(d, a) && ValidRoute(d, b) && a != [] && b != []
    ensures ValidRoute(d, a + b)
    ensures PathLength(d, a + b) == PathLength(d, a) + d[a[|a| - 1]][b[0]] + PathLength(d, b)
    decreases |b|
  {
    var ab := a + b;
    if |b| == 1 {
      assert ab[..|ab| - 1] == a;
    } else {
      var b' := b[..|b| - 1];
      assert ab[..|ab| - 1] == a + b';
      PathLengthAppend(d, a, b');
    }
  }

  /** With a symmetric table a path is as long backwards as forwards. */
  lemma {:induction false} PathLengthReversed(d: Table, s: seq<nat>)
    requires ValidRoute(d, s) && IsSymmetric(d)
    ensures ValidRoute(d, Reversed(s))
    ensures PathLength(d, Reversed(s)) == PathLength(d, s)
    decreases |s|
  {
    if |s| >= 2 {
      var s' := s[..|s| - 1];
      var x := s[|s| - 1];
      assert Reversed(s) == [x] + Reversed(s');
      PathLengthReversed(d, s');
      PathLengthAppend(d, [x], Reversed(s'));
      assert Reversed(s')[0] == s'[|s'| - 1];
    }
  }

  /** A closed tour is as long from any starting stop: rotating the route
      keeps every edge. */
  lemma RotationKeepsClosedLength(d: Table, s: seq<nat>, j: nat)
    requires ValidRoute(d, s) && j < |s|
    ensures ValidRoute(d, s[j..] + s[..j])
    ensures RouteLength(d, s[j..] + s[..j], true) == RouteLength(d, s, true)
  {
    if j == 0 {
      assert s[j..] + s[..j] == s;
    } else {
      var front, back := s[..j], s[j..];
      assert s == front + back;
      PathLengthAppend(d, front, back);
      PathLengthAppend(d, back, front);
    }
  }

  ghost predicate AllValid(d: Table, cands: seq<seq<nat>>)
  {
    forall j | 0 <= j < |cands| :: ValidRoute(d, cands[j])
  }

  /** `cands[idx]` is a shortest candidate and no earlier candidate is as
      short: the one a strict `<` running minimum keeps. */
  ghost predicate IsFirstMinimum(d: Table, cands: seq<seq<nat>>, idx: nat, closed: bool)
  {
    && AllValid(d, cands)
    && idx < |cands|
    && (forall j | 0 <= j < |cands| :: RouteLength(d, cands[idx], closed) <= RouteLength(d, cands[j], closed))
    && (forall j | 0 <= j < idx :: RouteLength(d, cands[idx], closed) < RouteLength(d, cands[j], closed))
  }

  /** A list of candidates has one first minimum at most: an earlier
      candidate is longer than it, a later one no shorter. */
  lemma FirstMinimumUnique(d: Table, cands: seq<seq<nat>>, i: nat, closed: bool)
    requires IsFirstMinimum(d, cands, i, closed)
    ensures forall j: nat | j < |cands| && j != i :: !IsFirstMinimum(d, cands, j, closed)
  {
    forall j: nat | j < |cands| && j != i
      ensures !IsFirstMinimum(d, cands, j, closed)
    {
      if j < i {
        assert RouteLength(d, cands[i], closed) < RouteLength(d, cands[j], closed);
      } else {
        assert RouteLength(d, cands[i], closed) <= RouteLength(d, cands[j], closed);
      }
    }
  }

  lemma FirstMinimumSingle(d: Table, c: seq<nat>, closed: bool)
    requires ValidRoute(d, c)
    ensures IsFirstMinimum(d, [c], 0, closed)
  {
  }

  /** One more candidate replaces the first minimum exactly when it is
      strictly shorter. */
  lemma FirstMinimumAppend(d: Table, cands: seq<seq<nat>>, idx: nat, c: seq<nat>, closed: bool)
    requires IsFirstMinimum(d, cands, idx, closed) && ValidRoute(d, c)
    ensures RouteLength(d, c, closed) < RouteLength(d, cands[idx], closed) ==> IsFirstMinimum(d, cands + [c], |cands|, closed)
    ensures RouteLength(d, c, closed) >= RouteLength(d, cands[idx], closed) ==> IsFirstMinimum(d, cands + [c], idx, closed)
  {
    var t := cands + [c];
    assert forall j | 0 <= j < |cands| :: t[j] == cands[j];
    assert t[|cands|] == c;
  }

  /** The running minimum of the exact solver: `best_len` starts at
      infinity (no candidate yet) and only a strictly shorter candidate
      replaces the best one. The same answer as `min(..., key=...)`. */
  method FirstMinimum(d: Table, cands: seq<seq<nat>>, closed: bool) returns (idx: nat)
    requires AllValid(d, cands) && cands != []
    ensures IsFirstMinimum(d, cands, idx, closed)
  {
    var best: Option<nat> := None;
    var bestLen := 0.0;
    for j := 0 to |cands|
      invariant best.None? <==> j == 0
      invariant best.Some? ==> best.value < j && bestLen == RouteLength(d, cands[best.value], closed)
      invariant best.Some? ==> forall m | 0 <= m < j :: bestLen <= RouteLength(d, cands[m], closed)
      invariant best.Some? ==> forall m | 0 <= m < best.value :: bestLen < RouteLength(d, cands[m], closed)
    {
      var length := RouteLength(d, cands[j], closed);
      if best.None? || length < bestLen {
        best := Some(j);
        bestLen := length;
      }
    }
    idx := best.value;
  }
}
