/**
 * The staircase of a half-edge (src/lib/c-oriented-schematization/Staircase.ts): the chain of
 * points that replaces an edge by steps along the two orientations of C enclosing the edge's
 * direction, and the region the staircase may occupy.
 *
 * The staircase reads its half-edge through an `EdgeView`; point construction by angle and
 * distance, the step lengths, the appended-area points, line intersection and the convex hull
 * are computations of classes outside this model and enter through an `Oracle` of functions.
 */
module Staircase {
  import opened Wrappers
  import opened Geometry
  import opened HalfEdgeClasses
  import opened OrientationRestriction

  /** Math.PI as a double. */
  const PI: real := 3.141592653589793

  /** What a staircase reads from its half-edge. */
  datatype EdgeView = EdgeView(
    cls: Option<OrientationClass>,
    tail: Point,
    head: Option<Point>,
    assignedAngle: Option<real>,
    angle: Option<real>,
    length: Option<real>,
    associatedAngles: Option<seq<real>>,
    closestAssociatedAngle: Option<real>,
    /** `getAssociatedSector()`: undefined, or the array of sectors enclosing the edge */
    associatedSectors: Option<seq<Sector>>)

  /** The geometric computations the staircase delegates to other classes. */
  datatype Oracle = Oracle(
    /** Point.getNewPoint(distance, angle) */
    newPoint: (Point, real, real) -> Point,
    /** HalfEdge.getStepLengths(se, angle) */
    stepLengths: (int, real) -> (real, real),
    /** getAppendedAreaPoints from the first staircase point and (l1, l2, d1) */
    appendedAreaPoints: (Point, real, real, real) -> (Point, Point),
    /** Line(p, a).intersectsLine(Line(q, b)) */
    intersectLines: (Point, real, Point, real) -> Option<Point>,
    /** the Graham scan hull */
    convexHull: seq<Point> -> seq<Point>)

  /** Staircase.setDeltaE: a tenth of the edge's length, for aligned deviating edges only. */
  function DeltaE(e: EdgeView): (r: Option<real>)
    ensures r.Some? <==> e.cls == Some(AD) && e.length.Some?
    ensures r.Some? ==> r.value * 10.0 == e.length.value
  {
    if e.length.Some? && e.cls == Some(AD) then Some(e.length.value * 0.1) else None
  }

  /** `this.se || fallback`: an unset or zero step count falls back to the default. */
  function StepCount(se: Option<int>, fallback: int): (r: int)
    ensures se.Some? && se.value != 0 ==> r == se.value
    ensures se.None? || se.value == 0 ==> r == fallback
  {
    if se.None? || se.value == 0 then fallback else se.value
  }

  /** `angles.find(angle => angle !== d1)` */
  function FindOther(angles: seq<real>, d1: real): (r: Option<real>)
    ensures r.None? <==> forall i :: 0 <= i < |angles| ==> angles[i] == d1
    ensures r.Some? ==> r.value != d1 && exists i :: 0 <= i < |angles| && angles[i] == r.value && forall j :: 0 <= j < i ==> angles[j] == d1
  {
    if |angles| == 0 then None
    else if angles[0] != d1 then Some(angles[0])
    else
      var r := FindOther(angles[1..], d1);
      assert forall i :: 0 < i < |angles| ==> angles[i] == angles[1..][i - 1];
      if r.Some? then
        var i :| 0 <= i < |angles[1..]| && angles[1..][i] == r.value && forall j :: 0 <= j < i ==> angles[1..][j] == d1;
        assert angles[i + 1] == r.value && forall j :: 0 <= j < i + 1 ==> angles[j] == d1;
        r
      else r
  }

  /** The two step lengths and directions of a staircase. */
  datatype Steps = Steps(l1: real, d1: real, l2: real, d2: real)

  /**
   * The preamble shared by the UB, E and UD constructions: the first direction `d1`, the first
   * other associated angle `d2`, and the step lengths for `lengthSteps` steps; `None` for the
   * early `return []`.
   */
  function SetUp(first: Option<real>, associated: Option<seq<real>>, lengthSteps: int, o: Oracle): (r: Option<Steps>)
    ensures r.None? <==> first.None? || associated.None? || FindOther(associated.value, first.value).None?
    ensures r.Some? ==>
      && r.value.d1 == first.value
      && Some(r.value.d2) == FindOther(associated.value, first.value)
      && (r.value.l1, r.value.l2) == o.stepLengths(lengthSteps, first.value)
  {
    if first.None? || associated.None? then None
    else
      match FindOther(associated.value, first.value)
      case None => None
      case Some(d2) =>
        var (l1, l2) := o.stepLengths(lengthSteps, first.value);
        Some(Steps(l1, first.value, l2, d2))
  }

  /** Which step of a staircase goes in the assigned direction first. */
  datatype StepOrder =
    | Alternating          // idx % 2 === 0
    | FirstHalf(bound: int) // idx < bound / 2

  predicate AssignedFirst(order: StepOrder, idx: int)
  {
    match order
    case Alternating => idx % 2 == 0
    case FirstHalf(bound) => 2 * idx < bound
  }

  /** Step `idx` leads from point 2*idx over point 2*idx+1 to point 2*idx+2, one leg in each direction. */
  ghost predicate StepAt(points: seq<Point>, idx: int, s: Steps, order: StepOrder, newPoint: (Point, real, real) -> Point)
    requires 0 <= idx && 2 * idx + 2 < |points|
  {
    var o := points[2 * idx];
    var p1 := points[2 * idx + 1];
    if AssignedFirst(order, idx) then
      p1 == newPoint(o, s.l1, s.d1) && points[2 * idx + 2] == newPoint(p1, s.l2, s.d2)
    else
      p1 == newPoint(o, s.l2, s.d2) && points[2 * idx + 2] == newPoint(p1, s.l1, s.d1)
  }

  function Max0(n: int): nat
  {
    if n < 0 then 0 else n
  }

  /** A staircase of `count` steps from `tail`. */
  ghost predicate IsStaircase(points: seq<Point>, tail: Point, count: int, s: Steps, order: StepOrder,
                              newPoint: (Point, real, real) -> Point)
  {
    && |points| == 1 + 2 * Max0(count)
    && points[0] == tail
    && forall idx :: 0 <= idx < count ==> StepAt(points, idx, s, order, newPoint)
  }

  /** Every point of a staircase is reached from the one before by a step along one of its two directions. */
  lemma StaircaseIsChainOfSteps(points: seq<Point>, tail: Point, count: int, s: Steps, order: StepOrder,
                                newPoint: (Point, real, real) -> Point)
    requires IsStaircase(points, tail, count, s, order, newPoint)
    ensures forall k :: 0 <= k < |points| - 1 ==>
      points[k + 1] == newPoint(points[k], s.l1, s.d1) || points[k + 1] == newPoint(points[k], s.l2, s.d2)
  {
    forall k | 0 <= k < |points| - 1
      ensures points[k + 1] == newPoint(points[k], s.l1, s.d1) || points[k + 1] == newPoint(points[k], s.l2, s.d2)
    {
      var idx := k / 2;
      assert StepAt(points, idx, s, order, newPoint);
    }
  }

  /** The loop shared by the UB, E and UD constructions. */
  method BuildSteps(tail: Point, count: int, s: Steps, order: StepOrder, newPoint: (Point, real, real) -> Point)
    returns (points: seq<Point>)
    ensures IsStaircase(points, tail, count, s, order, newPoint)
  {
    points := [tail];
    var idx := 0;
    while idx < count
      invariant 0 <= idx <= Max0(count)
      invariant |points| == 1 + 2 * idx && points[0] == tail
      invariant forall k :: 0 <= k < idx ==> StepAt(points, k, s, order, newPoint)
    {
      var o := points[idx * 2];
      var p1, p2;
      if AssignedFirst(order, idx) {
        p1 := newPoint(o, s.l1, s.d1);
        p2 := newPoint(p1, s.l2, s.d2);
      } else {
        p1 := newPoint(o, s.l2, s.d2);
        p2 := newPoint(p1, s.l1, s.d1);
      }
      ghost var before := points;
      points := points + [p1, p2];
      assert forall k :: 0 <= k < idx ==> StepAt(before, k, s, order, newPoint) ==> StepAt(points, k, s, order, newPoint);
      idx := idx + 1;
    }
  }

  /** The staircase of an unaligned basic edge: `se || 2` steps, alternately starting in the assigned direction. */
  ghost predicate PointsUB(e: EdgeView, se: Option<int>, o: Oracle, points: seq<Point>)
  {
    var count := StepCount(se, 2);
    match SetUp(e.assignedAngle, e.associatedAngles, count, o)
    case None => points == []
    case Some(s) => IsStaircase(points, e.tail, count, s, Alternating, o.newPoint)
  }

  /** The staircase of an evading edge: `se || 4` steps, the first half starting in the assigned direction. */
  ghost predicate PointsE(e: EdgeView, se: Option<int>, o: Oracle, points: seq<Point>)
  {
    var count := StepCount(se, 4);
    match SetUp(e.assignedAngle, e.associatedAngles, count, o)
    case None => points == []
    case Some(s) => IsStaircase(points, e.tail, count, s, FirstHalf(count), o.newPoint)
  }

  /**
   * The staircase of an unaligned deviating edge: one step fewer than an evading edge, along the
   * closest associated angle, with the two appended-area points inserted after the tail.
   */
  ghost predicate PointsUD(e: EdgeView, se: Option<int>, o: Oracle, points: seq<Point>)
  {
    var count := StepCount(se, 4);
    match SetUp(e.closestAssociatedAngle, e.associatedAngles, count - 1, o)
    case None => points == []
    case Some(s) =>
      var (p1, p2) := o.appendedAreaPoints(e.tail, s.l1, s.l2, s.d1);
      && |points| >= 3
      && points[1] == p1 && points[2] == p2
      && IsStaircase(points[..1] + points[3..], e.tail, count - 1, s, FirstHalf(count - 2), o.newPoint)
  }

  /** JavaScript's `%` on numbers: the remainder of truncated division, with the dividend's sign. */
  function JsFmod(a: real, m: real): real
    requires m > 0.0
  {
    var q := a / m;
    var t := if q >= 0.0 then q.Floor else -((-q).Floor);
    a - m * (t as real)
  }

  /** The direction opposite to `d1`: `(d1 + PI) % (PI * 2)`. */
  function Opposite(d1: real): real
  {
    JsFmod(d1 + PI, PI * 2.0)
  }

  /** For an angle in [0, 2 PI), the opposite direction is half a turn away, and turning twice gives the angle back. */
  lemma OppositeIsHalfTurn(d1: real)
    requires 0.0 <= d1 < 2.0 * PI
    ensures Opposite(d1) == if d1 < PI then d1 + PI else d1 - PI
    ensures 0.0 <= Opposite(d1) < 2.0 * PI
    ensures Opposite(Opposite(d1)) == d1
  {
    var m := PI * 2.0;
    var a := d1 + PI;
    if d1 < PI {
      assert 0.0 <= a / m < 1.0;
      assert (a / m).Floor == 0;
    } else {
      assert 1.0 <= a / m < 2.0;
      assert (a / m).Floor == 1;
    }
    var b := Opposite(d1);
    if b < PI {
      assert 0.0 <= (b + PI) / m < 1.0;
      assert ((b + PI) / m).Floor == 0;
    } else {
      assert 1.0 <= (b + PI) / m < 2.0;
      assert ((b + PI) / m).Floor == 1;
    }
  }

  /**
   * Staircase.getStaircasePointsAD: seven points from tail to head: a short step of deltaE
   * along the assigned direction, half the shortened edge along the edge's own direction, a
   * step of twice deltaE back along the opposite direction, the second half, and a final
   * deltaE step; empty when deltaE is unset or zero or an angle, the length or the head is missing.
   */
  function PointsAD(e: EdgeView, deltaE: Option<real>, epsilon: real, o: Oracle): (r: seq<Point>)
    ensures r == [] <==>
      deltaE.None? || deltaE.value == 0.0 || e.assignedAngle.None? || e.angle.None? || e.length.None? || e.head.None?
    ensures r != [] ==> |r| == 7 && r[0] == e.tail && r[6] == e.head.value
    ensures r != [] ==>
      var half := e.length.value * (1.0 - epsilon) / 2.0;
      && r[1] == o.newPoint(r[0], deltaE.value, e.assignedAngle.value)
      && r[2] == o.newPoint(r[1], half, e.angle.value)
      && r[3] == o.newPoint(r[2], deltaE.value * 2.0, Opposite(e.assignedAngle.value))
      && r[4] == o.newPoint(r[3], half, e.angle.value)
      && r[5] == o.newPoint(r[4], deltaE.value, e.assignedAngle.value)
  {
    if deltaE.None? || deltaE.value == 0.0 then []
    else if e.assignedAngle.None? || e.angle.None? then []
    else if e.length.None? || e.head.None? then []
    else
      var d1 := e.assignedAngle.value;
      var d2 := e.angle.value;
      var d1Opposite := Opposite(d1);
      var half := e.length.value * (1.0 - epsilon) / 2.0;
      var p0 := e.tail;
      var p1 := o.newPoint(p0, deltaE.value, d1);
      var p2 := o.newPoint(p1, half, d2);
      var p3 := o.newPoint(p2, deltaE.value * 2.0, d1Opposite);
      var p4 := o.newPoint(p3, half, d2);
      var p5 := o.newPoint(p4, deltaE.value, d1);
      [p0, p1, p2, p3, p4, p5, e.head.value]
  }

  /** What Staircase.getStaircasePoints promises for each class; every other class has no staircase points. */
  ghost predicate StaircasePointsSpec(e: EdgeView, se: Option<int>, deltaE: Option<real>, epsilon: real, o: Oracle, points: seq<Point>)
  {
    match e.cls
    case Some(UB) => PointsUB(e, se, o, points)
    case Some(E) => PointsE(e, se, o, points)
    case Some(AD) => points == PointsAD(e, deltaE, epsilon, o)
    case Some(UD) => PointsUD(e, se, o, points)
    case _ => points == []
  }

  /**
   * Staircase.getSimpleRegion: the parallelogram between the lines through tail and head along
   * the bounds of the first associated sector; empty when the head, the sector array or an
   * intersection is missing, and a throw when the sector array is empty (`associatedSector[0]`).
   */
  function SimpleRegion(e: EdgeView, o: Oracle): (r: Outcome<seq<Point>>)
    ensures r.Throws? <==> e.head.Some? && e.associatedSectors == Some([])
    ensures r.Returns? ==> r.value == [] || |r.value| == 4
    ensures r.Returns? && |r.value| == 4 <==> (
      && e.head.Some? && e.associatedSectors.Some? && |e.associatedSectors.value| > 0
      && var s := e.associatedSectors.value[0];
      && o.intersectLines(e.tail, s.lower, e.head.value, s.upper).Some?
      && o.intersectLines(e.tail, s.upper, e.head.value, s.lower).Some?)
    ensures r.Returns? && |r.value| == 4 ==> r.value[0] == e.tail && r.value[2] == e.head.value
  {
    if e.head.None? then Returns([])
    else if e.associatedSectors.None? then Returns([])
    else if |e.associatedSectors.value| == 0 then Throws
    else
      var (lower, upper) := GetBounds(e.associatedSectors.value[0]);
      var A := e.tail;
      var C := e.head.value;
      var B := o.intersectLines(A, lower, C, upper);
      var D := o.intersectLines(A, upper, C, lower);
      if B.Some? && D.Some? then Returns([A, B.value, C, D.value]) else Returns([])
  }

  /** The pentagon V, B, C, W, D with P spliced in at index 2 when P lies outside it. */
  function SpliceOutlier(pentagon: seq<Point>, P: Point): (r: seq<Point>)
    requires |pentagon| == 5
    ensures InPolygon(P, pentagon) ==> r == pentagon
    ensures !InPolygon(P, pentagon) ==> |r| == 6 && r[2] == P && r[..2] + r[3..] == pentagon
    ensures InPolygon(P, pentagon) || P in r
  {
    if InPolygon(P, pentagon) then pentagon else pentagon[..2] + [P] + pentagon[2..]
  }

  /**
   * The region of an unaligned deviating edge (the UD case of Staircase.getRegion), built
   * around the staircase point P (`this.points[2]`, undefined for a shorter staircase) and
   * extended by P when P lies outside. It throws on a missing sector (`getAssociatedSector()[0]`),
   * on missing associated angles (`getAssociatedAngles().find`), and on an undefined P once
   * the lines through P are intersected.
   */
  function UdRegion(e: EdgeView, P: Option<Point>, o: Oracle): (r: Outcome<seq<Point>>)
    ensures r.Throws? <==> (
      && e.head.Some? && e.assignedAngle.Some?
      && (|| e.associatedSectors.None? || |e.associatedSectors.value| == 0
          || e.associatedAngles.None?
          || (e.closestAssociatedAngle.Some? && FindOther(e.associatedAngles.value, e.closestAssociatedAngle.value).Some? && P.None?)))
    ensures r.Returns? ==> r.value == [] || |r.value| == 5 || |r.value| == 6
    ensures r.Returns? && r.value != [] ==> r.value[0] == e.tail && e.head.Some? && r.value[|r.value| - 2] == e.head.value
    ensures r.Returns? && r.value != [] ==> P.Some? && (InPolygon(P.value, r.value) || P.value in r.value)
  {
    if e.head.None? || e.assignedAngle.None? then Returns([])
    else if e.associatedSectors.None? || |e.associatedSectors.value| == 0 then Throws
    else if e.associatedAngles.None? then Throws
    else
      var (lower, upper) := GetBounds(e.associatedSectors.value[0]);
      var smallest := e.closestAssociatedAngle;
      var largest := if smallest.None? then None else FindOther(e.associatedAngles.value, smallest.value);
      if smallest.None? || largest.None? then Returns([])
      else if P.None? then Throws
      else
        var V := e.tail;
        var W := e.head.value;
        var cAngle := if largest.value == upper then upper else lower;
        var dAngle := if cAngle == upper then lower else upper;
        var C := o.intersectLines(P.value, smallest.value, W, cAngle);
        var B := o.intersectLines(V, e.assignedAngle.value, P.value, smallest.value);
        var D := o.intersectLines(V, largest.value, W, dAngle);
        if B.None? || C.None? || D.None? then Returns([])
        else Returns(SpliceOutlier([V, B.value, C.value, W, D.value], P.value))
  }

  /** The third staircase point, `this.points[2]`: undefined for fewer than three points. */
  function ThirdPoint(points: seq<Point>): (r: Option<Point>)
    ensures r.Some? <==> |points| >= 3
    ensures r.Some? ==> r.value == points[2]
  {
    if |points| < 3 then None else Some(points[2])
  }

  /** The edge getRegion works on: the staircase's edge, or its twin when the edge's significant vertex is its head. */
  function RegionEdge(edge: EdgeView, twin: Option<EdgeView>, significantAtHead: bool): Option<EdgeView>
  {
    if significantAtHead then twin else Some(edge)
  }

  /** The region Staircase.getRegion assigns, given the staircase points it has computed for UD and AD edges. */
  ghost predicate RegionSpec(edge: EdgeView, regionEdge: Option<EdgeView>, points: seq<Point>, o: Oracle, region: Outcome<seq<Point>>)
  {
    if regionEdge.None? || regionEdge.value.head.None? || regionEdge.value.assignedAngle.None? then region == Returns([])
    else
      var re := regionEdge.value;
      match re.cls
      case Some(AB) => region == Returns([re.tail, re.head.value, re.head.value, re.tail])
      case Some(UB) => region == SimpleRegion(edge, o)
      case Some(E) => region == SimpleRegion(edge, o)
      case Some(UD) => region == UdRegion(re, ThirdPoint(points), o)
      case Some(AD) => region == Returns(o.convexHull(points))
      case None => region == Returns([])
  }

  /** Whether getRegion computes the staircase points on the way. */
  predicate RegionComputesPoints(regionEdge: Option<EdgeView>)
  {
    && regionEdge.Some? && regionEdge.value.head.Some? && regionEdge.value.assignedAngle.Some?
    && (regionEdge.value.cls == Some(UD) || regionEdge.value.cls == Some(AD))
  }

  /** `if (!this.de || edgeDistance < this.de) this.de = edgeDistance`: an unset or zero distance is always replaced. */
  function NextDe(de: Option<real>, d: real): (r: Option<real>)
    ensures r.Some?
    ensures de.Some? && de.value != 0.0 ==> r.value == if d < de.value then d else de.value
    ensures de.None? || de.value == 0.0 ==> r.value == d
  {
    if de.None? || de.value == 0.0 || d < de.value then Some(d) else de
  }

  /** The edge distance after reporting `ds` one by one. */
  function FoldDe(de: Option<real>, ds: seq<real>): Option<real>
  {
    if |ds| == 0 then de else NextDe(FoldDe(de, ds[..|ds| - 1]), ds[|ds| - 1])
  }

  function Min(ds: seq<real>): (m: real)
    requires |ds| > 0
    ensures forall i :: 0 <= i < |ds| ==> m <= ds[i]
    ensures exists i :: 0 <= i < |ds| && m == ds[i]
  {
    if |ds| == 1 then ds[0]
    else
      var front := Min(ds[..|ds| - 1]);
      assert forall i :: 0 <= i < |ds| - 1 ==> ds[..|ds| - 1][i] == ds[i];
      if ds[|ds| - 1] < front then ds[|ds| - 1] else front
  }

  /** Reporting positive distances one by one leaves the smallest of them (and of a positive earlier one). */
  lemma {:induction false} EdgeDistanceIsMinimum(de: Option<real>, ds: seq<real>)
    requires |ds| > 0
    requires forall i :: 0 <= i < |ds| ==> ds[i] > 0.0
    requires de.Some? ==> de.value > 0.0
    ensures FoldDe(de, ds) == Some(if de.Some? && de.value < Min(ds) then de.value else Min(ds))
  {
    var n := |ds| - 1;
    if n == 0 {
      assert Min(ds) == ds[0];
    } else {
      var front := ds[..n];
      assert forall i :: 0 <= i < n ==> front[i] == ds[i];
      EdgeDistanceIsMinimum(de, front);
      assert Min(ds) == if ds[n] < Min(front) then ds[n] else Min(front);
    }
  }

  /** A zero distance does not stick: the next reported distance replaces it, even a larger one. */
  lemma ZeroDistanceIsReplaced(d: real)
    ensures NextDe(Some(0.0), d) == Some(d)
    ensures FoldDe(None, [0.0, d]) == Some(d)
  {
    assert [0.0, d][..1] == [0.0];
    assert [0.0][..0] == [];
  }

  class Staircase {
    const edge: EdgeView
    var deltaE: Option<real>
    var points: seq<Point>
    /** `Throws` when getRegion throws, so that the source's constructor throws too */
    var region: Outcome<seq<Point>>
    var de: Option<real>
    var se: Option<int>
    var interferesWith: seq<nat>

    /**
     * Staircase.constructor: sets deltaE, then computes the region, which computes the staircase
     * points for UD and AD edges. `twin` is the edge's twin and `significantAtHead` tells that
     * the edge's significant vertex is its head, so that getRegion works on the twin.
     */
    constructor (edge: EdgeView, twin: Option<EdgeView>, significantAtHead: bool, epsilon: real, o: Oracle)
      ensures this.edge == edge && deltaE == DeltaE(edge)
      ensures de.None? && se.None? && interferesWith == []
      ensures RegionComputesPoints(RegionEdge(edge, twin, significantAtHead)) ==> StaircasePointsSpec(edge, None, DeltaE(edge), epsilon, o, points)
      ensures !RegionComputesPoints(RegionEdge(edge, twin, significantAtHead)) ==> points == []
      ensures RegionSpec(edge, RegionEdge(edge, twin, significantAtHead), points, o, region)
    {
      this.edge := edge;
      deltaE := DeltaE(edge);
      de := None;
      se := None;
      interferesWith := [];
      points := [];
      new;
      region := GetRegion(twin, significantAtHead, epsilon, o);
    }

    /** Staircase.getRegion */
    method GetRegion(twin: Option<EdgeView>, significantAtHead: bool, epsilon: real, o: Oracle) returns (r: Outcome<seq<Point>>)
      modifies this`points
      ensures RegionComputesPoints(RegionEdge(edge, twin, significantAtHead)) ==> StaircasePointsSpec(edge, se, deltaE, epsilon, o, points)
      ensures !RegionComputesPoints(RegionEdge(edge, twin, significantAtHead)) ==> points == old(points)
      ensures RegionSpec(edge, RegionEdge(edge, twin, significantAtHead), points, o, r)
    {
      var regionEdge := if significantAtHead then twin else Some(edge);
      if regionEdge.None? || regionEdge.value.head.None? || regionEdge.value.assignedAngle.None? {
        return Returns([]);
      }
      var re := regionEdge.value;
      match re.cls
      case Some(AB) =>
        r := Returns([re.tail, re.head.value, re.head.value, re.tail]);
      case Some(UB) =>
        r := SimpleRegion(edge, o);
      case Some(E) =>
        r := SimpleRegion(edge, o);
      case Some(UD) =>
        points := GetStaircasePoints(epsilon, o);
        r := UdRegion(re, ThirdPoint(points), o);
      case Some(AD) =>
        points := GetStaircasePoints(epsilon, o);
        r := Returns(o.convexHull(points));
      case None =>
        r := Returns([]);
    }

    /** Staircase.getStaircasePoints: dispatch on the edge's class. */
    method GetStaircasePoints(epsilon: real, o: Oracle) returns (r: seq<Point>)
      ensures StaircasePointsSpec(edge, se, deltaE, epsilon, o, r)
    {
      match edge.cls
      case Some(UB) =>
        r := GetStaircasePointsUB(o);
      case Some(E) =>
        r := GetStaircasePointsE(o);
      case Some(AD) =>
        r := PointsAD(edge, deltaE, epsilon, o);
      case Some(UD) =>
        r := GetStaircasePointsUD(o);
      case _ =>
        r := [];
    }

    /** Staircase.getStaircasePointsUB */
    method GetStaircasePointsUB(o: Oracle) returns (r: seq<Point>)
      ensures PointsUB(edge, se, o, r)
      ensures r != [] ==> |r| == 1 + 2 * Max0(StepCount(se, 2)) && r[0] == edge.tail
    {
      var count := StepCount(se, 2);
      var s := SetUp(edge.assignedAngle, edge.associatedAngles, count, o);
      if s.None? {
        return [];
      }
      r := BuildSteps(edge.tail, count, s.value, Alternating, o.newPoint);
    }

    /** Staircase.getStaircasePointsE */
    method GetStaircasePointsE(o: Oracle) returns (r: seq<Point>)
      ensures PointsE(edge, se, o, r)
      ensures r != [] ==> |r| == 1 + 2 * Max0(StepCount(se, 4)) && r[0] == edge.tail
    {
      var count := StepCount(se, 4);
      var s := SetUp(edge.assignedAngle, edge.associatedAngles, count, o);
      if s.None? {
        return [];
      }
      r := BuildSteps(edge.tail, count, s.value, FirstHalf(count), o.newPoint);
    }

    /** Staircase.getStaircasePointsUD: `points.splice(1, 0, p1, p2)` after the loop. */
    method GetStaircasePointsUD(o: Oracle) returns (r: seq<Point>)
      ensures PointsUD(edge, se, o, r)
      ensures r != [] ==> |r| == 3 + 2 * Max0(StepCount(se, 4) - 1) && r[0] == edge.tail
    {
      var count := StepCount(se, 4);
      var s := SetUp(edge.closestAssociatedAngle, edge.associatedAngles, count - 1, o);
      if s.None? {
        return [];
      }
      var steps := BuildSteps(edge.tail, count - 1, s.value, FirstHalf(count - 2), o.newPoint);
      var (p1, p2) := o.appendedAreaPoints(steps[0], s.value.l1, s.value.l2, s.value.d1);
      r := steps[..1] + [p1, p2] + steps[1..];
      assert r[..1] + r[3..] == steps;
    }

    /** Staircase.setEdgeDistance: keeps the smaller distance and returns the reported one. */
    method SetEdgeDistance(edgeDistance: real) returns (r: real)
      modifies this`de
      ensures r == edgeDistance
      ensures de == NextDe(old(de), edgeDistance)
    {
      if de.None? || de.value == 0.0 || edgeDistance < de.value {
        de := Some(edgeDistance);
      }
      r := edgeDistance;
    }
  }
}
