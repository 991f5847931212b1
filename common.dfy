/** Shared vocabulary of the route search: results and errors, the time
    budget, index ranges, permutations of indices and sequence reversal. */
module Common {

  /** The exceptions the route search raises. */
  datatype Error =
    | InvalidPoint                  // ValueError: an element is not a length-2 sequence
    | NotAFloat                     // float() refused a coordinate
    | UnknownStrategy(name: string) // ValueError raised by find_path
    | UnboundRoute                  // UnboundLocalError raised by find_path_step

  datatype Result<T> = Success(value: T) | Failure(error: Error)

  datatype Option<T> = None | Some(value: T)

  /** The optional wall-clock budget. The clock is not modelled: a budget
      `Checks(k)` is found exhausted by the k-th clock check of a search
      (counting from 0) and by every later one; `Unlimited` is `None`. */
  datatype Budget = Unlimited | Checks(allowed: nat)

  predicate Expired(b: Budget, checks: nat)
  {
    b.Checks? && checks >= b.allowed
  }

  /** `time_budget_s` as the entry points receive it. Each search takes
      its own `start_time` when it begins, so the nearest-neighbour search
      and 2-opt each measure the whole budget from their own start: how
      many clock checks each one gets through is a separate input.
      `NoLimit` is `None`. */
  datatype TimeBudget = NoLimit | Limit(nearestChecks: nat, twoOptChecks: nat)

  /** The budget the nearest-neighbour search sees. */
  function NearestBudget(t: TimeBudget): (b: Budget)
    ensures b.Unlimited? <==> t.NoLimit?
    ensures t.Limit? ==> forall c: nat :: Expired(b, c) <==> c >= t.nearestChecks
  {
    if t.NoLimit? then Unlimited else Checks(t.nearestChecks)
  }

  /** The budget 2-opt sees. */
  function TwoOptBudget(t: TimeBudget): (b: Budget)
    ensures b.Unlimited? <==> t.NoLimit?
    ensures t.Limit? ==> forall c: nat :: Expired(b, c) <==> c >= t.twoOptChecks
  {
    if t.NoLimit? then Unlimited else Checks(t.twoOptChecks)
  }

  /** The budget as a loop sees it that skips its first clock check: its
      c-th check is the (c + 1)-th check of a loop that makes them all. */
  function Later(b: Budget): (r: Budget)
    ensures !Expired(r, 0)
    ensures forall c: nat :: Expired(r, c + 1) <==> Expired(b, c)
  {
    if b.Unlimited? then Unlimited else Checks(b.allowed + 1)
  }

  /** `list(range(lo, hi))`. */
  function Range(lo: nat, hi: nat): (r: seq<nat>)
    decreases hi - lo
    ensures |r| == if lo <= hi then hi - lo else 0
    ensures forall i | 0 <= i < |r| :: r[i] == lo + i
  {
    if lo >= hi then [] else [lo] + Range(lo + 1, hi)
  }

  lemma RangeMembership(lo: nat, hi: nat, x: nat)
    ensures x in Range(lo, hi) <==> lo <= x < hi
  {
    if lo <= x < hi {
      assert Range(lo, hi)[x - lo] == x;
    }
  }

  /** Every index occurs at most once in a range. */
  lemma {:induction false} RangeCount(lo: nat, hi: nat, x: nat)
    decreases hi - lo
    ensures multiset(Range(lo, hi))[x] == if lo <= x < hi then 1 else 0
  {
    if lo < hi {
      var rest := Range(lo + 1, hi);
      assert Range(lo, hi) == [lo] + rest;
      CountCons(x, lo, rest);
      RangeCount(lo + 1, hi, x);
    }
  }

  lemma CountCons(x: nat, y: nat, rest: seq<nat>)
    ensures multiset([y] + rest)[x] == (if x == y then 1 else 0) + multiset(rest)[x]
  {
    assert multiset([y] + rest) == multiset{y} + multiset(rest);
  }

  /** A route over n points: every index 0..n-1 exactly once. */
  ghost predicate IsPermutation(r: seq<nat>, n: nat)
  {
    multiset(r) == multiset(Range(0, n))
  }

  lemma PermutationBounds(r: seq<nat>, n: nat)
    requires IsPermutation(r, n)
    ensures |r| == n
    ensures forall i | 0 <= i < |r| :: r[i] < n
  {
    assert |r| == |multiset(r)| == |multiset(Range(0, n))| == n;
    forall i | 0 <= i < |r|
      ensures r[i] < n
    {
      assert r[i] in multiset(Range(0, n));
      RangeMembership(0, n, r[i]);
    }
  }

  lemma PermutationCovers(r: seq<nat>, n: nat, v: nat)
    requires IsPermutation(r, n) && v < n
    ensures v in r
  {
    RangeMembership(0, n, v);
    assert v in multiset(Range(0, n));
  }

  lemma PermutationDistinct(r: seq<nat>, n: nat)
    requires IsPermutation(r, n)
    ensures forall i, j | 0 <= i < j < |r| :: r[i] != r[j]
  {
    forall i, j | 0 <= i < j < |r|
      ensures r[i] != r[j]
    {
      if r[i] == r[j] {
        assert r == r[..j] + r[j..];
        assert r[i] in r[..j];
        assert r[j] in r[j..];
        assert multiset(r)[r[i]] == multiset(r[..j])[r[i]] + multiset(r[j..])[r[i]];
        RangeCount(0, n, r[i]);
        assert false;
      }
    }
  }

  /** `list(reversed(s))`. */
  function Reversed<T>(s: seq<T>): (r: seq<T>)
    ensures |r| == |s|
  {
    seq(|s|, j requires 0 <= j < |s| => s[|s| - 1 - j])
  }

  lemma ReversedEnds<T>(s: seq<T>)
    requires s != []
    ensures Reversed(s)[0] == s[|s| - 1] && Reversed(s)[|s| - 1] == s[0]
  {
  }

  lemma ReversedCons<T>(s: seq<T>)
    requires s != []
    ensures Reversed(s) == Reversed(s[1..]) + [s[0]]
  {
  }

  lemma {:induction false} ReversedMultiset<T>(s: seq<T>)
    ensures multiset(Reversed(s)) == multiset(s)
  {
    if s != [] {
      ReversedCons(s);
      ReversedMultiset(s[1..]);
      assert s == [s[0]] + s[1..];
    }
  }

  /** A sequence is its prefix, one element and its suffix. */
  lemma SplitAround<T>(s: seq<T>, j: nat)
    requires j < |s|
    ensures s == s[..j] + [s[j]] + s[j + 1..]
  {
  }

  /** Taking the first element off one of two sequences with equal
      multisets, and the same value off the other, keeps them equal. */
  lemma MultisetRemoveFirst(r1: seq<nat>, r2: seq<nat>, j: nat)
    requires multiset(r1) == multiset(r2) && r1 != [] && j < |r2| && r2[j] == r1[0]
    ensures multiset(r1[1..]) == multiset(r2[..j] + r2[j + 1..])
  {
    assert r1 == [r1[0]] + r1[1..];
    assert r2 == r2[..j] + [r2[j]] + r2[j + 1..];
    forall y
      ensures multiset(r1[1..])[y] == multiset(r2[..j] + r2[j + 1..])[y]
    {
      assert multiset(r1)[y] == multiset(r1[1..])[y] + multiset([r1[0]])[y];
      assert multiset(r2)[y] == multiset(r2[..j])[y] + multiset([r2[j]])[y] + multiset(r2[j + 1..])[y];
    }
  }

  lemma SameIndicesInRange(n: nat, r1: seq<nat>, r2: seq<nat>)
    requires forall i | 0 <= i < |r1| :: r1[i] < n
    requires multiset(r1) == multiset(r2)
    ensures forall i | 0 <= i < |r2| :: r2[i] < n
  {
    forall i | 0 <= i < |r2|
      ensures r2[i] < n
    {
      assert r2[i] in multiset(r1);
    }
  }
}
