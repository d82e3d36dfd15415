/**
 * Point geometry of src/lib/geometry/Point.ts over exact reals.
 *
 * The source rounds intermediate values with `toFixed(10)`; this model compares exactly.
 * `Math.sqrt` is a parameter `sqrt`; lemmas that need its meaning require `IsSqrt(sqrt)`.
 */
module Geometry {

  datatype Point = Point(x: real, y: real)

  /** The two end points of a `LineSegment`. */
  datatype LineSegment = LineSegment(endPoint1: Point, endPoint2: Point)

  /** `sqrt` returns the non-negative square root of every non-negative real. */
  ghost predicate IsSqrt(sqrt: real -> real)
  {
    forall r :: 0.0 <= r ==> 0.0 <= sqrt(r) && sqrt(r) * sqrt(r) == r
  }

  /** Point.xy */
  function Xy(p: Point): (r: seq<real>)
    ensures |r| == 2 && r[0] == p.x && r[1] == p.y
  {
    [p.x, p.y]
  }

  /** The radicand of `distanceToPoint`: a * a + b * b. */
  function SquaredDistance(p: Point, q: Point): real
  {
    var a := p.x - q.x;
    var b := p.y - q.y;
    a * a + b * b
  }

  /** Point.distanceToPoint */
  function DistanceToPoint(p: Point, q: Point, sqrt: real -> real): real
  {
    sqrt(SquaredDistance(p, q))
  }

  /** A product is zero only if a factor is zero. */
  lemma ProductZero(a: real, b: real)
    requires a * b == 0.0
    ensures a == 0.0 || b == 0.0
  {
    if b != 0.0 {
      assert a == (a * b) / b;
    }
  }

  /** A product of two factors of the same sign is non-negative. */
  lemma ProductNonNegative(a: real, b: real)
    requires (a >= 0.0 && b >= 0.0) || (a <= 0.0 && b <= 0.0)
    ensures a * b >= 0.0
  {
    if a < 0.0 && b < 0.0 {
      assert (-a) * (-b) == a * b;
    }
  }

  /** The square root of zero is zero. */
  lemma SqrtZero(sqrt: real -> real)
    requires IsSqrt(sqrt)
    ensures sqrt(0.0) == 0.0
  {
    ProductZero(sqrt(0.0), sqrt(0.0));
  }

  /** The distance is non-negative and symmetric, and it is zero exactly between a point and itself. */
  lemma DistanceIsMetricLike(p: Point, q: Point, sqrt: real -> real)
    requires IsSqrt(sqrt)
    ensures 0.0 <= DistanceToPoint(p, q, sqrt)
    ensures DistanceToPoint(p, q, sqrt) == DistanceToPoint(q, p, sqrt)
    ensures DistanceToPoint(p, p, sqrt) == 0.0
    ensures DistanceToPoint(p, q, sqrt) == 0.0 <==> p == q
  {
    var a, b := p.x - q.x, p.y - q.y;
    ProductNonNegative(a, a);
    ProductNonNegative(b, b);
    assert (-a) * (-a) == a * a && (-b) * (-b) == b * b;
    assert SquaredDistance(q, p) == SquaredDistance(p, q);
    SqrtZero(sqrt);
    assert SquaredDistance(p, p) == 0.0;
    var d := SquaredDistance(p, q);
    if sqrt(d) == 0.0 {
      assert d == sqrt(d) * sqrt(d);
      ProductZero(a, a);
      ProductZero(b, b);
    }
  }

  /** LineSegment.getLength, the distance between the two end points. */
  function SegmentLength(s: LineSegment, sqrt: real -> real): real
  {
    DistanceToPoint(s.endPoint1, s.endPoint2, sqrt)
  }

  /** Point.isOnLineSegment: the distances to both end points add up to the segment's length. */
  predicate IsOnLineSegment(p: Point, s: LineSegment, sqrt: real -> real)
  {
    DistanceToPoint(p, s.endPoint1, sqrt) + DistanceToPoint(p, s.endPoint2, sqrt) == SegmentLength(s, sqrt)
  }

  /** Both end points of a segment lie on it. */
  lemma EndPointsOnSegment(s: LineSegment, sqrt: real -> real)
    requires IsSqrt(sqrt)
    ensures IsOnLineSegment(s.endPoint1, s, sqrt)
    ensures IsOnLineSegment(s.endPoint2, s, sqrt)
  {
    DistanceIsMetricLike(s.endPoint1, s.endPoint2, sqrt);
    DistanceIsMetricLike(s.endPoint2, s.endPoint2, sqrt);
  }

  /** Point.equals: both coordinate differences are zero. */
  predicate Equals(p: Point, q: Point)
  {
    p.x - q.x == 0.0 && p.y - q.y == 0.0
  }

  /** `equals` is equality of points, hence reflexive and symmetric. */
  lemma EqualsIsEquality(p: Point, q: Point)
    ensures Equals(p, q) <==> p == q
    ensures Equals(p, p)
    ensures Equals(p, q) == Equals(q, p)
  {
  }

  /** Index of the end point of the polygon edge that starts at `i`: the next point, cyclically. */
  function NextIndex(n: nat, i: nat): (j: nat)
    requires i < n
    ensures j == if i + 1 == n then 0 else i + 1
  {
    (i + 1) % n
  }

  /** The coefficients a, b, c of the line through the polygon edge starting at point `i`. */
  function EdgeA(poly: seq<Point>, i: nat): real
    requires i < |poly|
  {
    var p1 := poly[i];
    var p2 := poly[NextIndex(|poly|, i)];
    -(p2.y - p1.y)
  }

  function EdgeB(poly: seq<Point>, i: nat): real
    requires i < |poly|
  {
    var p1 := poly[i];
    var p2 := poly[NextIndex(|poly|, i)];
    p2.x - p1.x
  }

  function EdgeC(poly: seq<Point>, i: nat): real
    requires i < |poly|
  {
    var p1 := poly[i];
    -(EdgeA(poly, i) * p1.x + EdgeB(poly, i) * p1.y)
  }

  /** The value D[i] of `isInPolygon`: the signed edge-line value of `p` against edge `i`. */
  function EdgeValue(p: Point, poly: seq<Point>, i: nat): real
    requires i < |poly|
  {
    EdgeA(poly, i) * p.x + EdgeB(poly, i) * p.y + EdgeC(poly, i)
  }

  /** The convex point-in-polygon test: all edge values are >= 0 or all are <= 0. */
  predicate InPolygon(p: Point, poly: seq<Point>)
  {
    (forall i :: 0 <= i < |poly| ==> EdgeValue(p, poly, i) >= 0.0) ||
    (forall i :: 0 <= i < |poly| ==> EdgeValue(p, poly, i) <= 0.0)
  }

  /** Point.isInPolygon: accumulates the coefficient arrays A, B, C, then tests the signs of D. */
  method IsInPolygon(p: Point, poly: seq<Point>) returns (inside: bool)
    ensures inside <==> InPolygon(p, poly)
  {
    var A: seq<real> := [];
    var B: seq<real> := [];
    var C: seq<real> := [];
    var idx := 0;
    while idx < |poly|
      invariant 0 <= idx <= |poly|
      invariant |A| == idx && |B| == idx && |C| == idx
      invariant forall i :: 0 <= i < idx ==> A[i] == EdgeA(poly, i) && B[i] == EdgeB(poly, i) && C[i] == EdgeC(poly, i)
    {
      var p1 := poly[idx];
      var p2 := poly[(idx + 1) % |poly|];
      var a := -(p2.y - p1.y);
      var b := p2.x - p1.x;
      var c := -(a * p1.x + b * p1.y);
      assert a == EdgeA(poly, idx) && b == EdgeB(poly, idx) && c == EdgeC(poly, idx);
      A, B, C := A + [a], B + [b], C + [c];
      idx := idx + 1;
    }
    var D := seq(|A|, i requires 0 <= i < |A| => A[i] * p.x + B[i] * p.y + C[i]);
    assert forall i :: 0 <= i < |D| ==> D[i] == EdgeValue(p, poly, i);
    var t1 := forall i :: 0 <= i < |D| ==> D[i] >= 0.0;
    var t2 := forall i :: 0 <= i < |D| ==> D[i] <= 0.0;
    inside := t1 || t2;
  }

  /** A polygon without points contains every point: both universal tests are vacuous. */
  lemma EmptyPolygonContainsAll(p: Point)
    ensures InPolygon(p, [])
  {
  }

  function Reverse<T>(s: seq<T>): (r: seq<T>)
    ensures |r| == |s|
    ensures forall i :: 0 <= i < |s| ==> r[i] == s[|s| - 1 - i]
  {
    seq(|s|, i requires 0 <= i < |s| => s[|s| - 1 - i])
  }

  /** Walking an edge backwards negates the edge value of every point. */
  lemma ReversedEdgeValue(p: Point, q1: Point, q2: Point)
    ensures EdgeValue(p, [q2, q1], 0) == -EdgeValue(p, [q1, q2], 0)
  {
    var a, b := -(q2.y - q1.y), q2.x - q1.x;
    assert EdgeA([q1, q2], 0) == a && EdgeB([q1, q2], 0) == b;
    assert EdgeA([q2, q1], 0) == -a && EdgeB([q2, q1], 0) == -b;
    assert EdgeValue(p, [q1, q2], 0) == a * (p.x - q1.x) + b * (p.y - q1.y);
    assert EdgeValue(p, [q2, q1], 0) == -a * (p.x - q2.x) - b * (p.y - q2.y);
    assert a * (q2.x - q1.x) + b * (q2.y - q1.y) == 0.0;
  }

  /** The value of `p` against edge `i` depends only on the edge's two end points. */
  lemma EdgeValueOfEnds(p: Point, poly: seq<Point>, i: nat)
    requires i < |poly|
    ensures EdgeValue(p, poly, i) == EdgeValue(p, [poly[i], poly[NextIndex(|poly|, i)]], 0)
  {
  }

  /** Edge `i` of the reversed polygon is this edge of the original, walked backwards. */
  function Mirror(n: nat, i: nat): (j: nat)
    requires i < n
    ensures j < n
  {
    if i == n - 1 then n - 1 else n - 2 - i
  }

  lemma ReversedPolygonEdge(p: Point, poly: seq<Point>, i: nat)
    requires i < |poly|
    ensures EdgeValue(p, Reverse(poly), i) == -EdgeValue(p, poly, Mirror(|poly|, i))
  {
    var n := |poly|;
    var rev := Reverse(poly);
    var j := Mirror(n, i);
    EdgeValueOfEnds(p, rev, i);
    EdgeValueOfEnds(p, poly, j);
    assert rev[i] == poly[NextIndex(n, j)];
    assert rev[NextIndex(n, i)] == poly[j];
    ReversedEdgeValue(p, poly[j], poly[NextIndex(n, j)]);
  }

  /** The test does not depend on the orientation of the polygon. */
  lemma InPolygonReversed(p: Point, poly: seq<Point>)
    ensures InPolygon(p, Reverse(poly)) <==> InPolygon(p, poly)
  {
    var n := |poly|;
    var rev := Reverse(poly);
    forall i | 0 <= i < n
      ensures EdgeValue(p, rev, i) == -EdgeValue(p, poly, Mirror(n, i))
    {
      ReversedPolygonEdge(p, poly, i);
    }
    forall j | 0 <= j < n
      ensures EdgeValue(p, poly, j) == -EdgeValue(p, rev, Mirror(n, j))
    {
      assert Mirror(n, Mirror(n, j)) == j;
      ReversedPolygonEdge(p, poly, Mirror(n, j));
    }
  }

  /** Every corner of a triangle counts as inside it, whatever its orientation. */
  lemma TriangleCornersInside(a: Point, b: Point, c: Point)
    ensures InPolygon(a, [a, b, c])
    ensures InPolygon(b, [a, b, c])
    ensures InPolygon(c, [a, b, c])
  {
    var t := [a, b, c];
    assert EdgeValue(a, t, 0) == 0.0 && EdgeValue(a, t, 2) == 0.0;
    assert EdgeValue(b, t, 0) == 0.0 && EdgeValue(b, t, 1) == 0.0;
    assert EdgeValue(c, t, 1) == 0.0 && EdgeValue(c, t, 2) == 0.0;
    if EdgeValue(a, t, 1) >= 0.0 {
      assert forall i :: 0 <= i < 3 ==> EdgeValue(a, t, i) >= 0.0;
    } else {
      assert forall i :: 0 <= i < 3 ==> EdgeValue(a, t, i) <= 0.0;
    }
    if EdgeValue(b, t, 2) >= 0.0 {
      assert forall i :: 0 <= i < 3 ==> EdgeValue(b, t, i) >= 0.0;
    } else {
      assert forall i :: 0 <= i < 3 ==> EdgeValue(b, t, i) <= 0.0;
    }
    if EdgeValue(c, t, 0) >= 0.0 {
      assert forall i :: 0 <= i < 3 ==> EdgeValue(c, t, i) >= 0.0;
    } else {
      assert forall i :: 0 <= i < 3 ==> EdgeValue(c, t, i) <= 0.0;
    }
  }
}
