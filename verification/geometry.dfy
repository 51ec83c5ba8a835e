/**
 * Planar points and polylines. A polyline carries, beside its vertices, the
 * arc length from its first vertex to each vertex (`cum`), so that projecting
 * vertex i onto the line gives `cum[i]`. Square roots are not computed: a
 * valid polyline's consecutive arc-length steps are non-negative and their
 * squares equal the squared Euclidean distances of the vertices they join.
 */
module Geometry {

  datatype Point = Point(x: real, y: real)

  function SqDist(a: Point, b: Point): real
  {
    (a.x - b.x) * (a.x - b.x) + (a.y - b.y) * (a.y - b.y)
  }

  /** A shapely `LineString`: its coordinates and their cumulative arc lengths. */
  datatype Line = Line(coords: seq<Point>, cum: seq<real>)

  /** A shapely geometry as the core meets it. */
  datatype Geom = LineString(line: Line) | MultiLineString(parts: seq<Line>) | OtherGeom

  /** A shapely `Polygon`: an exterior ring and interior rings (holes), as coordinate lists. */
  datatype Polygon = Polygon(exterior: seq<Point>, interiors: seq<seq<Point>>)

  /** A straight two-point connector `LineString([a, b])` whose length is not needed. */
  datatype Edge = Edge(from: Point, to: Point)

  predicate StepOk(l: Line, k: int)
    requires 0 <= k < |l.coords| - 1 && |l.cum| == |l.coords|
  {
    var step := l.cum[k + 1] - l.cum[k];
    step >= 0.0 && step * step == SqDist(l.coords[k], l.coords[k + 1])
  }

  predicate ValidLine(l: Line)
  {
    && |l.coords| >= 2
    && |l.cum| == |l.coords|
    && l.cum[0] == 0.0
    && forall k :: 0 <= k < |l.coords| - 1 ==> StepOk(l, k)
  }

  function Length(l: Line): real
    requires ValidLine(l)
  {
    l.cum[|l.cum| - 1]
  }

  /** Arc lengths never decrease along a valid polyline. */
  lemma {:induction false} CumMonotone(l: Line, i: int, j: int)
    requires ValidLine(l) && 0 <= i <= j < |l.cum|
    ensures l.cum[i] <= l.cum[j]
    decreases j - i
  {
    if i < j {
      assert StepOk(l, i);
      CumMonotone(l, i + 1, j);
    }
  }

  lemma LengthNonNegative(l: Line)
    requires ValidLine(l)
    ensures 0.0 <= Length(l)
    ensures forall k :: 0 <= k < |l.cum| ==> 0.0 <= l.cum[k] <= Length(l)
  {
    forall k | 0 <= k < |l.cum|
      ensures 0.0 <= l.cum[k] <= Length(l)
    {
      CumMonotone(l, 0, k);
      CumMonotone(l, k, |l.cum| - 1);
    }
  }

  /** The point a fraction `t` of the way from `a` to `b`. */
  function Lerp(a: Point, b: Point, t: real): Point
  {
    Point(a.x + t * (b.x - a.x), a.y + t * (b.y - a.y))
  }

  lemma LerpSqDist(a: Point, b: Point, t: real)
    ensures SqDist(a, Lerp(a, b, t)) == t * t * SqDist(a, b)
    ensures SqDist(Lerp(a, b, t), b) == (1.0 - t) * (1.0 - t) * SqDist(a, b)
  {
    var dx, dy := b.x - a.x, b.y - a.y;
    var p := Lerp(a, b, t);
    assert p.x - a.x == t * dx && p.y - a.y == t * dy;
    assert b.x - p.x == (1.0 - t) * dx && b.y - p.y == (1.0 - t) * dy;
    assert (t * dx) * (t * dx) == t * t * (dx * dx);
    assert (t * dy) * (t * dy) == t * t * (dy * dy);
    assert ((1.0 - t) * dx) * ((1.0 - t) * dx) == (1.0 - t) * (1.0 - t) * (dx * dx);
    assert ((1.0 - t) * dy) * ((1.0 - t) * dy) == (1.0 - t) * (1.0 - t) * (dy * dy);
  }

  /**
   * The first vertex whose arc length reaches `d`, for `d` strictly inside
   * the line's extent: the vertex that the cut and the interpolation stop at.
   */
  function FirstReaching(l: Line, d: real): (i: int)
    requires ValidLine(l) && 0.0 < d <= Length(l)
    ensures 0 < i < |l.cum| && l.cum[i - 1] < d <= l.cum[i]
    ensures forall j :: 0 <= j < i ==> l.cum[j] < d
  {
    FirstReachingFrom(l, d, 1)
  }

  function FirstReachingFrom(l: Line, d: real, j: int): (i: int)
    requires ValidLine(l) && 0.0 < d <= Length(l)
    requires 0 < j < |l.cum| && forall k :: 0 <= k < j ==> l.cum[k] < d
    ensures j <= i < |l.cum| && l.cum[i - 1] < d <= l.cum[i]
    ensures forall k :: 0 <= k < i ==> l.cum[k] < d
    decreases |l.cum| - j
  {
    if d <= l.cum[j] then j else FirstReachingFrom(l, d, j + 1)
  }

  /**
   * shapely's `line.interpolate(d)` for `d >= 0`: the point at arc length `d`,
   * or the last vertex when `d` reaches past the end.
   */
  function PointAt(l: Line, d: real): Point
    requires ValidLine(l) && d >= 0.0
  {
    if d == 0.0 then l.coords[0]
    else if d >= Length(l) then l.coords[|l.coords| - 1]
    else
      var i := FirstReaching(l, d);
      Lerp(l.coords[i - 1], l.coords[i], (d - l.cum[i - 1]) / (l.cum[i] - l.cum[i - 1]))
  }

  /**
   * The interpolated point lies at arc distance `d` from the previous vertex
   * and at the remaining distance from the next one.
   */
  lemma {:induction false} PointAtDistances(l: Line, d: real)
    requires ValidLine(l) && 0.0 < d < Length(l)
    ensures var i := FirstReaching(l, d);
      && SqDist(l.coords[i - 1], PointAt(l, d)) == (d - l.cum[i - 1]) * (d - l.cum[i - 1])
      && SqDist(PointAt(l, d), l.coords[i]) == (l.cum[i] - d) * (l.cum[i] - d)
  {
    var i := FirstReaching(l, d);
    var a, b := l.coords[i - 1], l.coords[i];
    var s := l.cum[i] - l.cum[i - 1];
    assert StepOk(l, i - 1);
    assert s > 0.0;
    var t := (d - l.cum[i - 1]) / s;
    LerpSqDist(a, b, t);
    assert t * s == d - l.cum[i - 1];
    assert (1.0 - t) * s == l.cum[i] - d;
    assert t * t * (s * s) == (t * s) * (t * s);
    assert (1.0 - t) * (1.0 - t) * (s * s) == ((1.0 - t) * s) * ((1.0 - t) * s);
  }

  /** A point at an exact vertex is that vertex. */
  lemma PointAtVertex(l: Line, d: real)
    requires ValidLine(l) && 0.0 < d < Length(l)
    requires l.cum[FirstReaching(l, d)] == d
    ensures PointAt(l, d) == l.coords[FirstReaching(l, d)]
  {
    var i := FirstReaching(l, d);
    var s := l.cum[i] - l.cum[i - 1];
    assert (d - l.cum[i - 1]) / s == 1.0;
  }
}
