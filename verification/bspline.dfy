/**
 * Curve evaluation of the B-spline viewer: the clamped knot vector, the
 * knot-span search, de Boor's recursion and de Casteljau's recursion, and
 * the sampling loop that turns the control polygon into the list of curve
 * points that is drawn.
 *
 * `degree` is the viewer's own variable: the ORDER of the spline (the
 * polynomial degree plus one). The viewer never lets it drop below 2.
 * Control points and curve points are the numpy pairs `[x, y]`; the
 * arithmetic is exact.
 */
module BSpline {
  import opened Wrappers
  import Vectors

  datatype Point = Point(x: real, y: real)

  /** `(1 - alpha) * p + alpha * q`, the step shared by both recursions. */
  function Combine(p: Point, q: Point, alpha: real): Point {
    Point((1.0 - alpha) * p.x + alpha * q.x, (1.0 - alpha) * p.y + alpha * q.y)
  }

  /** `p` lies in the axis-parallel box with corners `lo` and `hi`. */
  predicate WithinBox(p: Point, lo: Point, hi: Point) {
    lo.x <= p.x <= hi.x && lo.y <= p.y <= hi.y
  }

  lemma CombineEnds(p: Point, q: Point)
    ensures Combine(p, q, 0.0) == p && Combine(p, q, 1.0) == q
  {
  }

  /** Combining a point with itself gives the point back, whatever the weight. */
  lemma CombineSame(p: Point, alpha: real)
    ensures Combine(p, p, alpha) == p
  {
    assert (1.0 - alpha) * p.x + alpha * p.x == p.x;
    assert (1.0 - alpha) * p.y + alpha * p.y == p.y;
  }

  /** A weight in [0, 1] gives a value between the bounds of both ends. */
  lemma BetweenBounds(a: real, b: real, alpha: real, lo: real, hi: real)
    requires 0.0 <= alpha <= 1.0
    requires lo <= a <= hi && lo <= b <= hi
    ensures lo <= (1.0 - alpha) * a + alpha * b <= hi
  {
    Vectors.NonNegativeProduct(1.0 - alpha, a - lo);
    Vectors.NonNegativeProduct(alpha, b - lo);
    Vectors.NonNegativeProduct(1.0 - alpha, hi - a);
    Vectors.NonNegativeProduct(alpha, hi - b);
    assert (1.0 - alpha) * a + alpha * b - lo == (1.0 - alpha) * (a - lo) + alpha * (b - lo);
    assert hi - ((1.0 - alpha) * a + alpha * b) == (1.0 - alpha) * (hi - a) + alpha * (hi - b);
  }

  lemma CombineWithin(p: Point, q: Point, alpha: real, lo: Point, hi: Point)
    requires 0.0 <= alpha <= 1.0
    requires WithinBox(p, lo, hi) && WithinBox(q, lo, hi)
    ensures WithinBox(Combine(p, q, alpha), lo, hi)
  {
    BetweenBounds(p.x, q.x, alpha, lo.x, hi.x);
    BetweenBounds(p.y, q.y, alpha, lo.y, hi.y);
  }

  // ------------------------------------------------------------ knot vector

  function Clamp(v: int, lo: int, hi: int): int {
    if v < lo then lo else if v > hi then hi else v
  }

  /**
   * The clamped uniform knot vector of a spline of order `degree` over
   * `count` control points: `degree` zeros, then 1, 2, ... one knot at a
   * time, then `degree` copies of the top value `count - degree + 1`.
   */
  ghost predicate IsKnotVector(knots: seq<int>, degree: int) {
    && 2 <= degree
    && 2 * degree + 1 <= |knots|
    && forall i :: 0 <= i < |knots| ==> knots[i] == Clamp(i - degree + 1, 0, |knots| - 2 * degree + 1)
  }

  /** The top knot of a knot vector over `count` control points. */
  function TopKnot(count: int, degree: int): int { count - degree + 1 }

  /**
   * `calc_knot_vector`: None when there are fewer than `degree + 1`
   * control points, otherwise the clamped knot vector, one knot per control
   * point plus `degree`.
   */
  function CalcKnotVector(count: nat, degree: int): (kv: Option<seq<int>>)
    requires 2 <= degree
    ensures kv.None? <==> count - 1 < degree
    ensures kv.Some? ==> |kv.value| == count + degree && IsKnotVector(kv.value, degree)
  {
    var pointsLen := count - 1;
    if pointsLen < degree then None
    else
      var start := seq(degree, _ => 0);
      var middle := seq(pointsLen - (degree - 2) - 1, x => x + 1);
      var end := seq(degree, _ => pointsLen - (degree - 2));
      var kv := start + middle + end;
      assert forall i :: 0 <= i < |kv| ==> kv[i] == Clamp(i - degree + 1, 0, |kv| - 2 * degree + 1) by {
        forall i | 0 <= i < |kv|
          ensures kv[i] == Clamp(i - degree + 1, 0, |kv| - 2 * degree + 1)
        {
          if i < degree {
            assert kv[i] == start[i];
          } else if i < degree + |middle| {
            assert kv[i] == middle[i - degree];
          } else {
            assert kv[i] == end[i - degree - |middle|];
          }
        }
      }
      Some(kv)
  }

  /**
   * The shape of every knot vector: it rises from `degree` zeros to
   * `degree` copies of its top value, never falls, and consecutive knots
   * that differ do so by exactly one.
   */
  lemma KnotVectorShape(knots: seq<int>, degree: int)
    requires IsKnotVector(knots, degree)
    ensures forall a, b :: 0 <= a <= b < |knots| ==> knots[a] <= knots[b]
    ensures forall i :: 0 <= i < degree ==> knots[i] == 0
    ensures forall i :: |knots| - degree <= i < |knots| ==> knots[i] == |knots| - 2 * degree + 1
    ensures forall i :: 0 <= i < |knots| - 1 ==> knots[i + 1] == knots[i] || knots[i + 1] == knots[i] + 1
    ensures Max(knots) == |knots| - 2 * degree + 1
  {
    var top := |knots| - 2 * degree + 1;
    assert knots[|knots| - 1] == top;
  }

  lemma KnotMax(knots: seq<int>, degree: int)
    requires IsKnotVector(knots, degree)
    ensures Max(knots) == |knots| - 2 * degree + 1
  {
    assert knots[|knots| - 1] == |knots| - 2 * degree + 1;
  }

  /** `max`: the largest element of a non-empty list. */
  function Max(s: seq<int>): (m: int)
    requires |s| > 0
    ensures m in s
    ensures forall i :: 0 <= i < |s| ==> s[i] <= m
  {
    if |s| == 1 then s[0]
    else
      var rest := Max(s[1..]);
      assert forall i :: 1 <= i < |s| ==> s[i] == s[1..][i - 1];
      if s[0] >= rest then s[0] else rest
  }

  // ------------------------------------------------------------- span search

  /**
   * The span that holds parameter `t`: below the top knot it is the last
   * knot whose value is the integer part of `t`; at the top knot it is the
   * last span with a non-zero length.
   */
  function KnotSpan(degree: int, top: int, t: real): int {
    if t == top as real then top + degree - 2 else t.Floor + degree - 1
  }

  /**
   * The span search inside `draw_curve`: for `t` below the top knot it finds
   * the first `j` with `knots[j] <= t < knots[j + 1]`, at the top knot it
   * picks `len(knots) - degree - 1`; either way de Boor's recursion can
   * start from it.
   */
  method FindSpan(knotvector: seq<int>, degree: int, t: real) returns (r: Option<int>)
    requires IsKnotVector(knotvector, degree)
    requires 0.0 <= t <= Max(knotvector) as real
    ensures r.Some?
    ensures r.value == KnotSpan(degree, |knotvector| - 2 * degree + 1, t)
    ensures t == Max(knotvector) as real ==> r.value == |knotvector| - degree - 1
    ensures t < Max(knotvector) as real ==>
      && 0 <= r.value < |knotvector| - 1
      && knotvector[r.value] as real <= t < knotvector[r.value + 1] as real
      && forall k :: 0 <= k < r.value ==> !(knotvector[k] as real <= t < knotvector[k + 1] as real)
    ensures degree - 1 <= r.value <= |knotvector| - degree - 1
  {
    KnotVectorShape(knotvector, degree);
    var top := |knotvector| - 2 * degree + 1;
    r := None;
    var j := 0;
    while true
      invariant r == None
      invariant t != top as real ==> 0 <= j <= t.Floor + degree - 1
      invariant t == top as real ==> j == 0
      decreases |knotvector| - j
    {
      if t == Max(knotvector) as real {
        r := Some(|knotvector| - degree - 1);
        break;
      }
      if knotvector[j] as real <= t < knotvector[j + 1] as real {
        r := Some(j);
        break;
      }
      j := j + 1;
    }
    if t != top as real {
      SpanIsFirst(knotvector, degree, t);
    }
  }

  /** Below the top knot, no span before `KnotSpan` contains `t`. */
  lemma SpanIsFirst(knots: seq<int>, degree: int, t: real)
    requires IsKnotVector(knots, degree)
    requires 0.0 <= t < (|knots| - 2 * degree + 1) as real
    ensures forall k :: 0 <= k < t.Floor + degree - 1 ==> !(knots[k] as real <= t < knots[k + 1] as real)
  {
    forall k | 0 <= k < t.Floor + degree - 1
      ensures !(knots[k] as real <= t < knots[k + 1] as real)
    {
      assert knots[k + 1] <= t.Floor;
    }
  }

  // ------------------------------------------------------------ de Boor

  /** The arguments for which `deboor` reads only existing knots and control points. */
  predicate DeBoorDomain(degree: int, pointCount: int, knotCount: int, j: int, i: int) {
    2 <= degree && 0 <= j <= i < pointCount && (j > 0 ==> i + degree <= knotCount)
  }

  /**
   * The weight `alpha` of one de Boor step: zero on a span of zero length,
   * otherwise the position of `t` in the span, which is in [0, 1] when `t`
   * lies in it.
   */
  function Alpha(knots: seq<int>, degree: int, t: real, j: int, i: int): (alpha: real)
    requires 0 <= i < |knots| && 0 <= i - j + degree < |knots|
    ensures knots[i - j + degree] == knots[i] ==> alpha == 0.0
    ensures knots[i] as real == t ==> alpha == 0.0
    ensures knots[i] as real != t && knots[i - j + degree] as real == t ==> alpha == 1.0
    ensures knots[i] as real <= t <= knots[i - j + degree] as real ==> 0.0 <= alpha <= 1.0
  {
    var span := knots[i - j + degree] - knots[i];
    if span == 0 then 0.0
    else
      AlphaInUnit(knots[i] as real, knots[i - j + degree] as real, t);
      (t - knots[i] as real) / span as real
  }

  lemma DivSelf(d: real)
    requires d != 0.0
    ensures d / d == 1.0
  {
  }

  /** A quotient of a non-negative numerator by a denominator no smaller lies in [0, 1]. */
  lemma DivBounds(n: real, d: real)
    requires 0.0 <= n <= d && d != 0.0
    ensures 0.0 <= n / d <= 1.0
  {
    var q := n / d;
    assert q * d == n;
    if q < 0.0 {
      Vectors.MulPositive(-q, d);
    } else if q > 1.0 {
      Vectors.MulPositive(q - 1.0, d);
    }
  }

  lemma AlphaInUnit(a: real, b: real, t: real)
    requires a != b
    ensures t == b ==> (t - a) / (b - a) == 1.0
    ensures a <= t <= b ==> 0.0 <= (t - a) / (b - a) <= 1.0
  {
    if t == b {
      DivSelf(b - a);
    }
    if a <= t <= b {
      DivBounds(t - a, b - a);
    }
  }

  /** `deboor`: de Boor's recursion, combining control points `i - j` to `i`. */
  function DeBoor(degree: int, controlPoints: seq<Point>, knots: seq<int>, t: real, j: int, i: int): Point
    requires DeBoorDomain(degree, |controlPoints|, |knots|, j, i)
    decreases j
  {
    if j == 0 then controlPoints[i]
    else
      var alpha := Alpha(knots, degree, t, j, i);
      Combine(DeBoor(degree, controlPoints, knots, t, j - 1, i - 1),
              DeBoor(degree, controlPoints, knots, t, j - 1, i), alpha)
  }

  /** If the control points used all equal `p`, so does the de Boor point. */
  lemma {:induction false} DeBoorConstant(degree: int, controlPoints: seq<Point>, knots: seq<int>, t: real,
                                          j: int, i: int, p: Point)
    requires DeBoorDomain(degree, |controlPoints|, |knots|, j, i)
    requires forall k :: i - j <= k <= i ==> controlPoints[k] == p
    ensures DeBoor(degree, controlPoints, knots, t, j, i) == p
    decreases j
  {
    if j > 0 {
      DeBoorConstant(degree, controlPoints, knots, t, j - 1, i - 1, p);
      DeBoorConstant(degree, controlPoints, knots, t, j - 1, i, p);
      CombineSame(p, Alpha(knots, degree, t, j, i));
    }
  }

  /**
   * When `t` lies in the knot interval of every step, the de Boor point is a
   * convex combination of control points `i - j` to `i`: it stays in every
   * box that holds them.
   */
  lemma {:induction false} DeBoorWithin(degree: int, controlPoints: seq<Point>, knots: seq<int>, t: real,
                                        j: int, i: int, lo: Point, hi: Point)
    requires DeBoorDomain(degree, |controlPoints|, |knots|, j, i)
    requires forall a, b :: 0 <= a <= b < |knots| ==> knots[a] <= knots[b]
    requires j > 0 ==> knots[i] as real <= t <= knots[i - j + degree] as real
    requires forall k :: i - j <= k <= i ==> WithinBox(controlPoints[k], lo, hi)
    ensures WithinBox(DeBoor(degree, controlPoints, knots, t, j, i), lo, hi)
    decreases j
  {
    if j > 0 {
      assert j - 1 > 0 ==> knots[i - 1] <= knots[i] && knots[i - j + degree] <= knots[i - j + 1 + degree];
      DeBoorWithin(degree, controlPoints, knots, t, j - 1, i - 1, lo, hi);
      DeBoorWithin(degree, controlPoints, knots, t, j - 1, i, lo, hi);
      CombineWithin(DeBoor(degree, controlPoints, knots, t, j - 1, i - 1),
                    DeBoor(degree, controlPoints, knots, t, j - 1, i),
                    Alpha(knots, degree, t, j, i), lo, hi);
    }
  }

  /** Where every knot of the steps' left ends equals `t`, each step keeps its left point. */
  lemma {:induction false} DeBoorAtLeft(degree: int, controlPoints: seq<Point>, knots: seq<int>, t: real,
                                        j: int, i: int)
    requires DeBoorDomain(degree, |controlPoints|, |knots|, j, i)
    requires forall k :: i - j < k <= i ==> knots[k] as real == t
    ensures DeBoor(degree, controlPoints, knots, t, j, i) == controlPoints[i - j]
    decreases j
  {
    if j > 0 {
      DeBoorAtLeft(degree, controlPoints, knots, t, j - 1, i - 1);
      CombineEnds(DeBoor(degree, controlPoints, knots, t, j - 1, i - 1),
                  DeBoor(degree, controlPoints, knots, t, j - 1, i));
    }
  }

  /** Where every knot of the steps' right ends equals `t` and the left one does not, each step keeps its right point. */
  lemma {:induction false} DeBoorAtRight(degree: int, controlPoints: seq<Point>, knots: seq<int>, t: real,
                                         j: int, i: int)
    requires DeBoorDomain(degree, |controlPoints|, |knots|, j, i)
    requires j > 0 ==> knots[i] as real != t
    requires forall k :: i - j + degree <= k < i + degree ==> knots[k] as real == t
    ensures DeBoor(degree, controlPoints, knots, t, j, i) == controlPoints[i]
    decreases j
  {
    if j > 0 {
      DeBoorAtRight(degree, controlPoints, knots, t, j - 1, i);
      CombineEnds(DeBoor(degree, controlPoints, knots, t, j - 1, i - 1),
                  DeBoor(degree, controlPoints, knots, t, j - 1, i));
    }
  }

  // ------------------------------------------------------------ de Casteljau

  /** One round of de Casteljau: each pair of neighbours combined with weight `t`. */
  function Reduce(points: seq<Point>, t: real): (r: seq<Point>)
    requires |points| >= 1
    ensures |r| == |points| - 1
    ensures forall i :: 0 <= i < |r| ==> r[i] == Combine(points[i], points[i + 1], t)
  {
    seq(|points| - 1, i requires 0 <= i < |points| - 1 => Combine(points[i], points[i + 1], t))
  }

  /** The Bézier point at `t`: rounds of `Reduce` until one point is left. */
  function BezierPoint(points: seq<Point>, t: real): Point
    requires |points| >= 1
    decreases |points|
  {
    if |points| == 1 then points[0] else BezierPoint(Reduce(points, t), t)
  }

  /**
   * `casteljau`: builds the next, one shorter, list of points in a loop and
   * recurses on it.
   */
  method Casteljau(bezierPoints: seq<Point>, t: real) returns (p: Point)
    requires |bezierPoints| >= 1
    ensures p == BezierPoint(bezierPoints, t)
    decreases |bezierPoints|
  {
    if |bezierPoints| == 1 {
      return bezierPoints[0];
    }
    var newPointList: seq<Point> := [];
    for i := 0 to |bezierPoints| - 1
      invariant |newPointList| == i
      invariant forall k :: 0 <= k < i ==> newPointList[k] == Combine(bezierPoints[k], bezierPoints[k + 1], t)
    {
      newPointList := newPointList + [Combine(bezierPoints[i], bezierPoints[i + 1], t)];
    }
    assert newPointList == Reduce(bezierPoints, t);
    p := Casteljau(newPointList, t);
  }

  /** At `t = 0` the curve is at its first control point. */
  lemma {:induction false} BezierAtZero(points: seq<Point>)
    requires |points| >= 1
    ensures BezierPoint(points, 0.0) == points[0]
    decreases |points|
  {
    if |points| > 1 {
      var r := Reduce(points, 0.0);
      BezierAtZero(r);
      CombineEnds(points[0], points[1]);
    }
  }

  /** At `t = 1` the curve is at its last control point. */
  lemma {:induction false} BezierAtOne(points: seq<Point>)
    requires |points| >= 1
    ensures BezierPoint(points, 1.0) == points[|points| - 1]
    decreases |points|
  {
    if |points| > 1 {
      var r := Reduce(points, 1.0);
      BezierAtOne(r);
      CombineEnds(points[|points| - 2], points[|points| - 1]);
    }
  }

  /** If every control point equals `p`, so does every point of the curve. */
  lemma {:induction false} BezierConstant(points: seq<Point>, t: real, p: Point)
    requires |points| >= 1
    requires forall k :: 0 <= k < |points| ==> points[k] == p
    ensures BezierPoint(points, t) == p
    decreases |points|
  {
    if |points| > 1 {
      var r := Reduce(points, t);
      forall k | 0 <= k < |r|
        ensures r[k] == p
      {
        CombineSame(p, t);
      }
      BezierConstant(r, t, p);
    }
  }

  /** For `t` in [0, 1] the curve stays in every box that holds the control points. */
  lemma {:induction false} BezierWithin(points: seq<Point>, t: real, lo: Point, hi: Point)
    requires |points| >= 1 && 0.0 <= t <= 1.0
    requires forall k :: 0 <= k < |points| ==> WithinBox(points[k], lo, hi)
    ensures WithinBox(BezierPoint(points, t), lo, hi)
    decreases |points|
  {
    if |points| > 1 {
      var r := Reduce(points, t);
      forall k | 0 <= k < |r|
        ensures WithinBox(r[k], lo, hi)
      {
        CombineWithin(points[k], points[k + 1], t, lo, hi);
      }
      BezierWithin(r, t, lo, hi);
    }
  }

  // ------------------------------------------------------------ draw_curve

  /** `max(knotvector) * (i / m)`: the parameter of the `i`-th of `m` steps. */
  function Parameter(top: int, i: int, m: int): (t: real)
    requires 0 <= top && 0 <= i <= m && 0 < m
    ensures 0.0 <= t <= top as real
    ensures i == 0 ==> t == 0.0
    ensures i == m ==> t == top as real
  {
    var q := i as real / m as real;
    DivBounds(i as real, m as real);
    DivSelf(m as real);
    Vectors.NonNegativeProduct(top as real, q);
    Vectors.NonNegativeProduct(top as real, 1.0 - q);
    top as real * q
  }

  /** The span stays between `degree - 1` and the last control point. */
  lemma SpanBounds(count: int, degree: int, t: real)
    requires 2 <= degree <= count - 1
    requires 0.0 <= t <= TopKnot(count, degree) as real
    ensures degree - 1 <= KnotSpan(degree, TopKnot(count, degree), t) <= count - 1
  {
  }

  /** The de Boor point at `t` of the clamped spline over `controlPoints`. */
  function SplinePoint(controlPoints: seq<Point>, knots: seq<int>, degree: int, t: real): Point
    requires IsKnotVector(knots, degree) && |knots| == |controlPoints| + degree
    requires 0.0 <= t <= TopKnot(|controlPoints|, degree) as real
  {
    SpanBounds(|controlPoints|, degree, t);
    DeBoor(degree, controlPoints, knots, t, degree - 1, KnotSpan(degree, TopKnot(|controlPoints|, degree), t))
  }

  /** The `i`-th of the `m + 1` points drawn in de Boor mode. */
  function SplineSample(controlPoints: seq<Point>, knots: seq<int>, degree: int, m: int, i: int): Point
    requires IsKnotVector(knots, degree) && |knots| == |controlPoints| + degree
    requires 0 <= i <= m && 0 < m
  {
    SplinePoint(controlPoints, knots, degree, Parameter(TopKnot(|controlPoints|, degree), i, m))
  }

  /** The `i`-th of the `n + 1` points drawn in Bézier mode. */
  function BezierSample(controlPoints: seq<Point>, n: int, i: int): Point
    requires |controlPoints| >= 1 && 0 <= i <= n && 0 < n
  {
    BezierPoint(controlPoints, i as real / n as real)
  }

  /** The clamped spline starts at the first control point and ends at the last. */
  lemma SplineEndpoints(controlPoints: seq<Point>, knots: seq<int>, degree: int)
    requires IsKnotVector(knots, degree) && |knots| == |controlPoints| + degree
    ensures SplinePoint(controlPoints, knots, degree, 0.0) == controlPoints[0]
    ensures SplinePoint(controlPoints, knots, degree, TopKnot(|controlPoints|, degree) as real)
         == controlPoints[|controlPoints| - 1]
  {
    var count := |controlPoints|;
    var top := TopKnot(count, degree);
    assert KnotSpan(degree, top, 0.0) == degree - 1;
    DeBoorAtLeft(degree, controlPoints, knots, 0.0, degree - 1, degree - 1);
    assert KnotSpan(degree, top, top as real) == count - 1;
    assert knots[count - 1] == top - 1;
    DeBoorAtRight(degree, controlPoints, knots, top as real, degree - 1, count - 1);
  }

  /**
   * Every point of the clamped spline is a convex combination of control
   * points, so it stays in every box that holds all of them.
   */
  lemma SplineWithin(controlPoints: seq<Point>, knots: seq<int>, degree: int, t: real, lo: Point, hi: Point)
    requires IsKnotVector(knots, degree) && |knots| == |controlPoints| + degree
    requires 0.0 <= t <= TopKnot(|controlPoints|, degree) as real
    requires forall k :: 0 <= k < |controlPoints| ==> WithinBox(controlPoints[k], lo, hi)
    ensures WithinBox(SplinePoint(controlPoints, knots, degree, t), lo, hi)
  {
    var count := |controlPoints|;
    var top := TopKnot(count, degree);
    KnotVectorShape(knots, degree);
    var r := KnotSpan(degree, top, t);
    SpanBounds(count, degree, t);
    assert knots[r] as real <= t <= knots[r + 1] as real;
    DeBoorWithin(degree, controlPoints, knots, t, degree - 1, r, lo, hi);
  }

  /** The first de Boor sample is the first control point and the `m`-th the last. */
  lemma SplineSampleEnds(controlPoints: seq<Point>, knots: seq<int>, degree: int, m: int)
    requires IsKnotVector(knots, degree) && |knots| == |controlPoints| + degree
    requires 0 < m
    ensures SplineSample(controlPoints, knots, degree, m, 0) == controlPoints[0]
    ensures SplineSample(controlPoints, knots, degree, m, m) == controlPoints[|controlPoints| - 1]
  {
    SplineEndpoints(controlPoints, knots, degree);
  }

  /** The first Bézier sample is the first control point and the `n`-th the last. */
  lemma BezierSampleEnds(controlPoints: seq<Point>, n: int)
    requires |controlPoints| >= 1 && 0 < n
    ensures BezierSample(controlPoints, n, 0) == controlPoints[0]
    ensures BezierSample(controlPoints, n, n) == controlPoints[|controlPoints| - 1]
  {
    assert 0 as real / n as real == 0.0;
    DivSelf(n as real);
    BezierAtZero(controlPoints);
    BezierAtOne(controlPoints);
  }

  datatype CurveError = ZeroDivision

  /** One pass of the de Boor loop of `draw_curve`: the parameter, its span, and the de Boor point there. */
  method SplineStep(controlPoints: seq<Point>, knotvector: seq<int>, degree: int, m: int, i: int) returns (boorPoint: Point)
    requires IsKnotVector(knotvector, degree) && |knotvector| == |controlPoints| + degree
    requires 0 <= i <= m && 0 < m
    ensures boorPoint == SplineSample(controlPoints, knotvector, degree, m, i)
  {
    KnotMax(knotvector, degree);
    var t := Parameter(Max(knotvector), i, m);
    var r := FindSpan(knotvector, degree, t);
    assert t == Parameter(TopKnot(|controlPoints|, degree), i, m);
    assert r.value == KnotSpan(degree, TopKnot(|controlPoints|, degree), t);
    boorPoint := DeBoor(degree, controlPoints, knotvector, t, degree - 1, r.value);
    assert boorPoint == SplinePoint(controlPoints, knotvector, degree, t);
    assert SplineSample(controlPoints, knotvector, degree, m, i) == SplinePoint(controlPoints, knotvector, degree, Parameter(TopKnot(|controlPoints|, degree), i, m));
  }

  /** The de Boor branch of `draw_curve`: `m + 1` samples, a division by zero when `m` is 0. */
  method SampleSpline(controlPoints: seq<Point>, knotvector: seq<int>, degree: int, m: int)
    returns (result: Result<seq<Point>, CurveError>)
    requires IsKnotVector(knotvector, degree) && |knotvector| == |controlPoints| + degree
    ensures result.Err? <==> m == 0
    ensures result.Ok? ==>
      && |result.value| == (if m >= 0 then m + 1 else 0)
      && forall i :: 0 <= i < |result.value| ==> result.value[i] == SplineSample(controlPoints, knotvector, degree, m, i)
  {
    var bezierPointList: seq<Point> := [];
    var i := 0;
    while i < m + 1
      invariant 0 <= i && (m >= 0 ==> i <= m + 1) && (m <= 0 ==> i == 0)
      invariant |bezierPointList| == i
      invariant forall k :: 0 <= k < i ==> bezierPointList[k] == SplineSample(controlPoints, knotvector, degree, m, k)
    {
      if m == 0 {
        return Err(ZeroDivision);
      }
      var boorPoint := SplineStep(controlPoints, knotvector, degree, m, i);
      bezierPointList := bezierPointList + [boorPoint];
      i := i + 1;
    }
    result := Ok(bezierPointList);
  }

  /** The Bézier branch of `draw_curve`: `n + 1` samples, a division by zero when `n` is 0. */
  method SampleBezier(controlPoints: seq<Point>, n: int) returns (result: Result<seq<Point>, CurveError>)
    requires |controlPoints| > 1
    ensures result.Err? <==> n == 0
    ensures result.Ok? ==>
      && |result.value| == (if n >= 0 then n + 1 else 0)
      && forall i :: 0 <= i < |result.value| ==> result.value[i] == BezierSample(controlPoints, n, i)
  {
    var bezierPointList: seq<Point> := [];
    var i := 0;
    while i < n + 1
      invariant 0 <= i && (n >= 0 ==> i <= n + 1) && (n <= 0 ==> i == 0)
      invariant |bezierPointList| == i
      invariant forall k :: 0 <= k < i ==> bezierPointList[k] == BezierSample(controlPoints, n, k)
    {
      if n == 0 {
        return Err(ZeroDivision);
      }
      var t := i as real / n as real;
      var p := Casteljau(controlPoints, t);
      bezierPointList := bezierPointList + [p];
      i := i + 1;
    }
    result := Ok(bezierPointList);
  }

  /**
   * `draw_curve`: samples `m + 1` points of the spline in de Boor mode when
   * a knot vector exists, `n + 1` points of the Bézier curve otherwise when
   * there are at least two control points, and nothing in the remaining
   * cases; either curve runs from the first control point to the last. A
   * zero step count divides by zero. The result is the new value of the
   * viewer's list of curve points.
   */
  method DrawCurve(mode: bool, controlPoints: seq<Point>, degree: int, m: int, n: int)
    returns (result: Result<seq<Point>, CurveError>)
    requires 2 <= degree
    ensures result.Err? <==>
      || (mode && |controlPoints| - 1 >= degree && m == 0)
      || (!mode && |controlPoints| > 1 && n == 0)
    ensures mode && result.Ok? ==>
      && |result.value| == (if |controlPoints| - 1 >= degree && m >= 0 then m + 1 else 0)
      && forall i :: 0 <= i < |result.value| ==>
           result.value[i] == SplineSample(controlPoints, CalcKnotVector(|controlPoints|, degree).value, degree, m, i)
    ensures !mode && result.Ok? ==>
      && |result.value| == (if |controlPoints| > 1 && n >= 0 then n + 1 else 0)
      && forall i :: 0 <= i < |result.value| ==> result.value[i] == BezierSample(controlPoints, n, i)
    ensures result.Ok? && |result.value| > 0 ==>
      result.value[0] == controlPoints[0] && result.value[|result.value| - 1] == controlPoints[|controlPoints| - 1]
  {
    result := Ok([]);
    if mode {
      var knotvector := CalcKnotVector(|controlPoints|, degree);
      if knotvector.Some? {
        result := SampleSpline(controlPoints, knotvector.value, degree, m);
        if m > 0 {
          SplineSampleEnds(controlPoints, knotvector.value, degree, m);
        }
      }
    } else {
      if |controlPoints| > 1 {
        result := SampleBezier(controlPoints, n);
        if n > 0 {
          BezierSampleEnds(controlPoints, n);
        }
      }
    }
  }
}
