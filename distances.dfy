/** The distance table (`_distance_matrix`, pure-Python fallback). The
    Euclidean distance `math.hypot(x2 - x1, y2 - y1)` is the parameter
    `metric`. */
module Distances {
  import opened Points

  type Table = seq<seq<real>>

  ghost predicate IsSquare(d: Table)
  {
    forall i | 0 <= i < |d| :: |d[i]| == |d|
  }

  ghost predicate IsSymmetric(d: Table)
    requires IsSquare(d)
  {
    forall i, j | 0 <= i < |d| && 0 <= j < |d| :: d[i][j] == d[j][i]
  }

  ghost predicate HasZeroDiagonal(d: Table)
    requires IsSquare(d)
  {
    forall i | 0 <= i < |d| :: d[i][i] == 0.0
  }

  ghost predicate IsNonNegative(d: Table)
    requires IsSquare(d)
  {
    forall i, j | 0 <= i < |d| && 0 <= j < |d| :: d[i][j] >= 0.0
  }

  /** What the route search expects of its table. */
  ghost predicate IsDistanceTable(d: Table)
  {
    IsSquare(d) && IsSymmetric(d) && HasZeroDiagonal(d) && IsNonNegative(d)
  }

  /** `math.hypot` never returns a negative number. */
  ghost predicate IsNonNegativeMetric(metric: (Point, Point) -> real)
  {
    forall p, q :: metric(p, q) >= 0.0
  }

  /** The table the fallback loop fills: the metric is applied once per
      unordered pair, with the lower index first, and the diagonal keeps
      the initial 0.0. */
  function TableOf(points: seq<Point>, metric: (Point, Point) -> real): (d: Table)
    ensures |d| == |points| && IsSquare(d)
    ensures IsSymmetric(d) && HasZeroDiagonal(d)
    ensures forall i, j | 0 <= i < j < |points| :: d[i][j] == metric(points[i], points[j])
    ensures IsNonNegativeMetric(metric) ==> IsDistanceTable(d)
  {
    var n := |points|;
    seq(n, i requires 0 <= i < n =>
      seq(n, j requires 0 <= j < n =>
        if i < j then metric(points[i], points[j])
        else if j < i then metric(points[j], points[i])
        else 0.0))
  }

  /** The cell (a, b) once the fallback loop has finished every row below
      `i` and, in row `i`, the columns below `j`. */
  ghost function Filled(points: seq<Point>, metric: (Point, Point) -> real, i: nat, j: nat, a: nat, b: nat): real
    requires a < |points| && b < |points|
  {
    if a < b && (a < i || (a == i && b < j)) then metric(points[a], points[b])
    else if b < a && (b < i || (b == i && a < j)) then metric(points[b], points[a])
    else 0.0
  }

  /** `_distance_matrix` without the NumPy/SciPy fast path: a
      preallocated n-by-n table of 0.0, filled pair by pair. */
  method DistanceMatrix(points: seq<Point>, metric: (Point, Point) -> real) returns (dists: Table)
    ensures dists == TableOf(points, metric)
  {
    var n := |points|;
    dists := seq(n, _ => seq(n, _ => 0.0));
    for i := 0 to n
      invariant |dists| == n
      invariant forall a | 0 <= a < n :: |dists[a]| == n
      invariant forall a, b | 0 <= a < n && 0 <= b < n :: dists[a][b] == Filled(points, metric, i, 0, a, b)
    {
      for j := i + 1 to n
        invariant |dists| == n
        invariant forall a | 0 <= a < n :: |dists[a]| == n
        invariant forall a, b | 0 <= a < n && 0 <= b < n :: dists[a][b] == Filled(points, metric, i, j, a, b)
      {
        var dist := metric(points[i], points[j]);
        dists := dists[i := dists[i][j := dist]];
        dists := dists[j := dists[j][i := dist]];
      }
      assert forall a, b | 0 <= a < n && 0 <= b < n ::
        Filled(points, metric, i, n, a, b) == Filled(points, metric, i + 1, 0, a, b);
    }
    var t := TableOf(points, metric);
    forall a | 0 <= a < n
      ensures dists[a] == t[a]
    {
      assert forall b | 0 <= b < n :: dists[a][b] == t[a][b];
    }
  }
}
