/** Input validation (`_coerce_points`) and the mapping of an index route
    back to point values. */
module Points {
  import opened Common

  /** A coordinate as handed to `float()`: a number, or any object that
      `float()` refuses. */
  datatype Coord = Numeric(value: real) | NonNumeric

  /** An element of the caller's point list: a sequence (tuple, list, ...)
      of coordinates, or an object that is not a sequence at all. */
  datatype RawPoint = Sequence(items: seq<Coord>) | NotSequence

  datatype Point = Point(x: real, y: real)

  /** One iteration of the coercion loop: the shape test, then `float(x)`
      and `float(y)` in that order. */
  function CoerceOne(p: RawPoint): (r: Result<Point>)
    ensures r.Success? <==> p.Sequence? && |p.items| == 2 && p.items[0].Numeric? && p.items[1].Numeric?
    ensures !(p.Sequence? && |p.items| == 2) ==> r == Failure(InvalidPoint)
    ensures p.Sequence? && |p.items| == 2 && !(p.items[0].Numeric? && p.items[1].Numeric?) ==> r == Failure(NotAFloat)
    ensures r.Success? ==> r.value == Point(p.items[0].value, p.items[1].value)
  {
    if !p.Sequence? || |p.items| != 2 then Failure(InvalidPoint)
    else if p.items[0].NonNumeric? || p.items[1].NonNumeric? then Failure(NotAFloat)
    else Success(Point(p.items[0].value, p.items[1].value))
  }

  /** The value `_coerce_points` produces: the converted list, or the
      exception of the first element that fails. */
  function Coerced(points: seq<RawPoint>): (r: Result<seq<Point>>)
    ensures r.Success? <==> forall i | 0 <= i < |points| :: CoerceOne(points[i]).Success?
    ensures r.Success? ==> |r.value| == |points|
    ensures r.Success? ==> forall i | 0 <= i < |points| :: CoerceOne(points[i]) == Success(r.value[i])
    ensures r.Failure? ==> exists i | 0 <= i < |points| ::
                             && CoerceOne(points[i]) == Failure(r.error)
                             && forall j | 0 <= j < i :: CoerceOne(points[j]).Success?
  {
    if points == [] then Success([])
    else match CoerceOne(points[0])
      case Failure(e) => Failure(e)
      case Success(p) =>
        var rest := Coerced(points[1..]);
        if rest.Failure? then
          ghost var i :| 0 <= i < |points[1..]| && CoerceOne(points[1..][i]) == Failure(rest.error)
                         && forall j | 0 <= j < i :: CoerceOne(points[1..][j]).Success?;
          assert CoerceOne(points[i + 1]) == Failure(rest.error);
          Failure(rest.error)
        else
          assert forall i | 1 <= i < |points| :: points[i] == points[1..][i - 1];
          Success([p] + rest.value)
  }

  /** `_coerce_points`: a loop that converts element after element and
      raises on the first element it cannot convert. */
  method CoercePoints(points: seq<RawPoint>) returns (r: Result<seq<Point>>)
    ensures r == Coerced(points)
  {
    var out: seq<Point> := [];
    var i := 0;
    PrefixedEmpty(Coerced(points));
    assert points[i..] == points;
    while i < |points|
      invariant 0 <= i <= |points|
      invariant Coerced(points) == Prefixed(out, Coerced(points[i..]))
    {
      CoercedSuffix(points, i);
      var p := CoerceOne(points[i]);
      if p.Failure? {
        return Failure(p.error);
      }
      PrefixedAppend(out, p.value, Coerced(points[i + 1..]));
      out := out + [p.value];
      i := i + 1;
    }
    assert points[i..] == [];
    assert out + [] == out;
    r := Success(out);
  }

  /** A conversion result with `out` put in front of the converted list. */
  function Prefixed(out: seq<Point>, r: Result<seq<Point>>): Result<seq<Point>>
  {
    match r
    case Success(rest) => Success(out + rest)
    case Failure(e) => Failure(e)
  }

  lemma PrefixedEmpty(r: Result<seq<Point>>)
    ensures Prefixed([], r) == r
  {
    if r.Success? {
      assert [] + r.value == r.value;
    }
  }

  lemma PrefixedAppend(out: seq<Point>, p: Point, r: Result<seq<Point>>)
    ensures Prefixed(out, Prefixed([p], r)) == Prefixed(out + [p], r)
  {
    if r.Success? {
      assert out + ([p] + r.value) == (out + [p]) + r.value;
    }
  }

  /** The conversion of a suffix: its first element, then the rest. */
  lemma CoercedSuffix(points: seq<RawPoint>, i: nat)
    requires i < |points|
    ensures Coerced(points[i..]) == match CoerceOne(points[i])
                                    case Failure(e) => Failure(e)
                                    case Success(p) => Prefixed([p], Coerced(points[i + 1..]))
  {
    assert points[i..][0] == points[i] && points[i..][1..] == points[i + 1..];
  }

  /** `[points_list[i] for i in route]`. */
  function Reindex(points: seq<Point>, route: seq<nat>): (path: seq<Point>)
    requires forall i | 0 <= i < |route| :: route[i] < |points|
    ensures |path| == |route|
    ensures forall i | 0 <= i < |route| :: path[i] == points[route[i]]
  {
    seq(|route|, i requires 0 <= i < |route| => points[route[i]])
  }

  lemma ReindexIdentity(points: seq<Point>)
    ensures Reindex(points, Range(0, |points|)) == points
  {
  }

  /** Re-indexing by two routes that hold the same indices yields the same
      multiset of points. */
  lemma {:induction false} ReindexSameIndices(points: seq<Point>, r1: seq<nat>, r2: seq<nat>)
    requires forall i | 0 <= i < |r1| :: r1[i] < |points|
    requires multiset(r1) == multiset(r2)
    ensures forall i | 0 <= i < |r2| :: r2[i] < |points|
    ensures multiset(Reindex(points, r1)) == multiset(Reindex(points, r2))
    decreases |r1|
  {
    SameIndicesInRange(|points|, r1, r2);
    if r1 == [] {
      assert |r2| == |multiset(r2)| == |multiset(r1)| == 0;
    } else {
      var x := r1[0];
      assert x in multiset(r2);
      var j :| 0 <= j < |r2| && r2[j] == x;
      MultisetRemoveFirst(r1, r2, j);
      ReindexSameIndices(points, r1[1..], r2[..j] + r2[j + 1..]);
      ReindexStep(points, r1, r2, j);
    }
  }

  /** The induction step: the first index of `r1`, found at `j` in `r2`,
      contributes the same point to both sides. */
  lemma ReindexStep(points: seq<Point>, r1: seq<nat>, r2: seq<nat>, j: nat)
    requires r1 != [] && j < |r2| && r2[j] == r1[0]
    requires forall i | 0 <= i < |r1| :: r1[i] < |points|
    requires forall i | 0 <= i < |r2| :: r2[i] < |points|
    requires multiset(Reindex(points, r1[1..])) == multiset(Reindex(points, r2[..j] + r2[j + 1..]))
    ensures multiset(Reindex(points, r1)) == multiset(Reindex(points, r2))
  {
    ReindexCons(points, r1);
    SplitAround(r2, j);
    ReindexTakeOut(points, r2[..j], r1[0], r2[j + 1..]);
  }

  lemma ReindexCons(points: seq<Point>, r: seq<nat>)
    requires r != [] && forall i | 0 <= i < |r| :: r[i] < |points|
    ensures forall i | 0 <= i < |r| - 1 :: r[1..][i] < |points|
    ensures Reindex(points, r) == [points[r[0]]] + Reindex(points, r[1..])
  {
  }

  /** Taking one index out of the middle of a route takes its point out
      of the re-indexed multiset. */
  lemma ReindexTakeOut(points: seq<Point>, front: seq<nat>, x: nat, back: seq<nat>)
    requires x < |points|
    requires forall i | 0 <= i < |front| :: front[i] < |points|
    requires forall i | 0 <= i < |back| :: back[i] < |points|
    ensures forall i | 0 <= i < |front + back| :: (front + back)[i] < |points|
    ensures multiset(Reindex(points, front + [x] + back))
         == multiset(Reindex(points, front + back)) + multiset{points[x]}
  {
    var a, b := Reindex(points, front), Reindex(points, back);
    assert Reindex(points, front + [x] + back) == a + [points[x]] + b;
    assert Reindex(points, front + back) == a + b;
  }

  /** The route search only re-orders: re-indexing by a permutation gives
      back the same multiset of points, none new and none dropped. */
  lemma ReindexIsPermutation(points: seq<Point>, route: seq<nat>)
    requires IsPermutation(route, |points|)
    ensures forall i | 0 <= i < |route| :: route[i] < |points|
    ensures |Reindex(points, route)| == |points|
    ensures multiset(Reindex(points, route)) == multiset(points)
  {
    PermutationBounds(route, |points|);
    ReindexSameIndices(points, route, Range(0, |points|));
    ReindexIdentity(points);
  }
}
