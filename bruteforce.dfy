/** The exact solver (`_solve_bruteforce`): every permutation, in the
    order `itertools.permutations` yields them, with a closed tour's first
    stop fixed at index 0. */
module Bruteforce {
  import opened Common
  import opened Distances
  import opened Tours

  function Remove(s: seq<nat>, i: nat): seq<nat>
    requires i < |s|
  {
    s[..i] + s[i + 1..]
  }

  /** `(x, *p)` for every `p` in `ps`, in order. */
  function Prepend(x: nat, ps: seq<seq<nat>>): (r: seq<seq<nat>>)
    ensures |r| == |ps|
    ensures forall j | 0 <= j < |ps| :: r[j] == [x] + ps[j]
  {
    seq(|ps|, j requires 0 <= j < |ps| => [x] + ps[j])
  }

  /** `itertools.permutations(s)`: lexicographic by position, that is, the
      permutations starting with `s[0]`, then those starting with `s[1]`,
      and so on, each group ordered the same way recursively. */
  function Permutations(s: seq<nat>): (ps: seq<seq<nat>>)
    ensures forall q: seq<nat> | q in ps :: multiset(q) == multiset(s)
    decreases |s|, 1
  {
    if s == [] then [[]] else PermsFrom(s, 0)
  }

  /** The permutations of `s` whose first element is `s[i]`, `s[i + 1]`, ... */
  function PermsFrom(s: seq<nat>, i: nat): (ps: seq<seq<nat>>)
    requires i <= |s|
    ensures forall q: seq<nat> | q in ps :: multiset(q) == multiset(s)
    decreases |s|, 0, |s| - i
  {
    if i == |s| then []
    else
      assert s == s[..i] + [s[i]] + s[i + 1..];
      assert forall p: seq<nat> | p in Permutations(Remove(s, i)) :: multiset([s[i]] + p) == multiset(s);
      Prepend(s[i], Permutations(Remove(s, i))) + PermsFrom(s, i + 1)
  }

  lemma {:induction false} PermsFromContains(s: seq<nat>, j: nat, i: nat, q: seq<nat>)
    requires j <= i < |s|
    requires q in Prepend(s[i], Permutations(Remove(s, i)))
    ensures q in PermsFrom(s, j)
    decreases i - j
  {
    if j < i {
      PermsFromContains(s, j + 1, i, q);
    }
  }

  /** Nothing is missed: every rearrangement of `s` is enumerated. */
  lemma {:induction false} PermutationsComplete(s: seq<nat>, q: seq<nat>)
    requires multiset(q) == multiset(s)
    ensures q in Permutations(s)
    decreases |s|
  {
    assert |q| == |multiset(q)| == |multiset(s)| == |s|;
    if s != [] {
      var x := q[0];
      assert x in multiset(s);
      var i :| 0 <= i < |s| && s[i] == x;
      MultisetRemoveFirst(q, s, i);
      PermutationsComplete(Remove(s, i), q[1..]);
      var rest := Permutations(Remove(s, i));
      var k :| 0 <= k < |rest| && rest[k] == q[1..];
      assert q == [x] + q[1..];
      assert Prepend(x, rest)[k] == q;
      PermsFromContains(s, 0, i, q);
    }
  }

  /** The routes the solver compares: `(0, *perm)` for every `perm` of
      `range(1, n)` when the tour is closed, every permutation of
      `range(n)` when it is open. */
  function Candidates(n: nat, closed: bool): (cands: seq<seq<nat>>)
    ensures n >= 1 ==> forall q | q in cands :: IsPermutation(q, n)
    ensures closed ==> forall q | q in cands :: q != [] && q[0] == 0
  {
    if closed then
      var ps := Permutations(Range(1, n));
      assert n >= 1 ==> Range(0, n) == [0] + Range(1, n);
      assert forall k | 0 <= k < |ps| :: ps[k] in ps;
      Prepend(0, ps)
    else
      Permutations(Range(0, n))
  }

  /** A closed tour, rotated to start at index 0. */
  lemma RotateToZero(d: Table, p: seq<nat>) returns (rotated: seq<nat>)
    requires IsSquare(d) && |d| >= 1 && IsPermutation(p, |d|)
    ensures ValidRoute(d, p) && ValidRoute(d, rotated)
    ensures IsPermutation(rotated, |d|) && rotated != [] && rotated[0] == 0
    ensures RouteLength(d, rotated, true) == RouteLength(d, p, true)
  {
    var n := |d|;
    PermutationBounds(p, n);
    PermutationCovers(p, n, 0);
    var z :| 0 <= z < n && p[z] == 0;
    rotated := p[z..] + p[..z];
    RotationKeepsClosedLength(d, p, z);
    assert p == p[..z] + p[z..];
    assert multiset(rotated) == multiset(p);
  }

  /** Every permutation that starts at 0 is a closed-tour candidate. */
  lemma ClosedCandidate(n: nat, q: seq<nat>)
    requires n >= 1 && IsPermutation(q, n) && q != [] && q[0] == 0
    ensures q in Candidates(n, true)
  {
    assert q == [0] + q[1..];
    assert Range(0, n) == [0] + Range(1, n);
    MultisetRemoveFirst(q, Range(0, n), 0);
    assert Range(0, n)[..0] + Range(0, n)[1..] == Range(1, n);
    PermutationsComplete(Range(1, n), q[1..]);
    var ps := Permutations(Range(1, n));
    var k :| 0 <= k < |ps| && ps[k] == q[1..];
    assert Candidates(n, true)[k] == q;
  }

  /** Every tour has a candidate exactly as long. For an open tour it is
      the tour itself; for a closed one, its rotation that starts at 0. */
  lemma CandidateForEveryTour(d: Table, closed: bool, p: seq<nat>)
    requires IsSquare(d) && |d| >= 1 && IsPermutation(p, |d|)
    ensures ValidRoute(d, p)
    ensures exists j | 0 <= j < |Candidates(|d|, closed)| ::
              && ValidRoute(d, Candidates(|d|, closed)[j])
              && RouteLength(d, Candidates(|d|, closed)[j], closed) == RouteLength(d, p, closed)
  {
    var n := |d|;
    PermutationBounds(p, n);
    var cands := Candidates(n, closed);
    if closed {
      var rotated := RotateToZero(d, p);
      ClosedCandidate(n, rotated);
      var k :| 0 <= k < |cands| && cands[k] == rotated;
    } else {
      PermutationsComplete(Range(0, n), p);
      var k :| 0 <= k < |cands| && cands[k] == p;
    }
  }

  /** `_solve_bruteforce`. */
  method SolveBruteforce(d: Table, closed: bool) returns (route: seq<nat>)
    requires IsSquare(d)
    ensures |d| < 2 ==> route == Range(0, |d|)
    ensures IsPermutation(route, |d|) && ValidRoute(d, route)
    ensures |d| >= 2 && closed ==> route[0] == 0
    ensures |d| >= 2 ==> exists idx: nat ::
              && idx < |Candidates(|d|, closed)| && Candidates(|d|, closed)[idx] == route
              && IsFirstMinimum(d, Candidates(|d|, closed), idx, closed)
    ensures forall p | IsPermutation(p, |d|) ::
              ValidRoute(d, p) && RouteLength(d, route, closed) <= RouteLength(d, p, closed)
  {
    var n := |d|;
    if n < 2 {
      route := Range(0, n);
      assert multiset(route) == multiset(Range(0, n));
      forall p | IsPermutation(p, n)
        ensures ValidRoute(d, p) && RouteLength(d, route, closed) <= RouteLength(d, p, closed)
      {
        PermutationBounds(p, n);
      }
      return;
    }
    var cands := Candidates(n, closed);
    forall j | 0 <= j < |cands|
      ensures ValidRoute(d, cands[j])
    {
      assert cands[j] in cands;
      PermutationBounds(cands[j], n);
    }
    assert multiset(Range(0, n)) == multiset(Range(0, n));
    CandidateForEveryTour(d, closed, Range(0, n));
    var idx := FirstMinimum(d, cands, closed);
    route := cands[idx];
    assert route in cands;
    PermutationBounds(route, n);
    forall p | IsPermutation(p, n)
      ensures ValidRoute(d, p) && RouteLength(d, route, closed) <= RouteLength(d, p, closed)
    {
      CandidateForEveryTour(d, closed, p);
    }
  }
}
