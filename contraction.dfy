/**
 * A contraction of a configuration (src/lib/c-oriented-schematization/Contraction.ts): moving
 * the inner edge of a configuration along its two tracks towards the contraction point, the
 * area this sweeps, and the boundary edges that would block the move.
 *
 * The configuration is read through a `ConfigurationView`; line and segment intersection and
 * `Math.sqrt` are computations of classes outside this model and enter as functions.
 */
module Contraction {
  import opened Wrappers
  import opened Geometry
  import Utilities

  /** ContractionType: positive or negative. */
  datatype ContractionType = P | N

  datatype Vector2D = Vector2D(dx: real, dy: real)

  function Dot(a: Vector2D, b: Vector2D): real
  {
    a.dx * b.dx + a.dy * b.dy
  }

  /** A line through a point with an angle. */
  datatype Line = Line(through: Point, angle: real)

  /** An edge of X', the edges that may block a contraction. */
  datatype BoundaryEdge = BoundaryEdge(id: nat, endpoints: seq<Point>, segment: Option<LineSegment>)

  /** What a contraction reads from its configuration and the configuration's inner edge. */
  datatype ConfigurationView = ConfigurationView(
    innerTail: Point,
    innerHead: Option<Point>,
    innerAngle: Option<real>,
    /** innerEdge.getVector()?.getNormal().getUnitVector() */
    innerNormal: Option<Vector2D>,
    /** innerEdge.getInflectionType() === InflectionType.B */
    innerIsBend: bool,
    /** innerEdge.prev?.tail (A) and innerEdge.prev?.getVector() */
    prevTail: Option<Point>,
    prevVector: Option<Vector2D>,
    /** innerEdge.next?.getHead() (D) and innerEdge.next?.twin?.getVector() */
    nextHead: Option<Point>,
    nextTwinVector: Option<Vector2D>,
    trackPrev: Option<Line>,
    trackNext: Option<Line>,
    /** getOuterEdge(PREV): its tail and head; getOuterEdge(NEXT)'s head */
    outerPrevTail: Option<Point>,
    outerPrevHead: Option<Point>,
    outerNextHead: Option<Point>,
    /** getX_() */
    xPrime: seq<BoundaryEdge>)

  datatype Oracle = Oracle(
    intersectLines: (Line, Line) -> Option<Point>,
    intersectSegments: (LineSegment, LineSegment) -> Option<Point>,
    sqrt: real -> real)

  datatype Candidate = Candidate(point: Point, dist: real)

  /** The point candidates of Contraction.getPoint, in the order they are pushed. */
  function Candidates(c: ConfigurationView, normal: Vector2D, A: Point, D: Point, T: Option<Point>): (r: seq<Candidate>)
    ensures |r| <= 3
    ensures forall i :: 0 <= i < |r| ==> r[i].point == A || r[i].point == D || (c.innerIsBend && T == Some(r[i].point))
    ensures c.innerIsBend && T.Some? ==> |r| > 0 && r[0].point == T.value
  {
    var withT := if c.innerIsBend && T.Some? then
        var distT := Dot(Vector2D(c.innerTail.x - T.value.x, c.innerTail.y - T.value.y), normal);
        [Candidate(T.value, distT)]
      else [];
    var withA := if c.prevVector.Some? then withT + [Candidate(A, Dot(c.prevVector.value, normal))] else withT;
    if c.nextTwinVector.Some? then withA + [Candidate(D, Dot(c.nextTwinVector.value, normal))] else withA
  }

  /**
   * The candidate a positive contraction takes: after the stable ascending sort by distance, the
   * first one at a non-negative distance, i.e. the smallest non-negative distance, earliest on ties.
   */
  function SelectPositive(cands: seq<Candidate>): (r: Option<nat>)
    ensures r.None? <==> forall j :: 0 <= j < |cands| ==> cands[j].dist < 0.0
    ensures r.Some? ==> r.value < |cands| && cands[r.value].dist >= 0.0
    ensures r.Some? ==> forall j :: 0 <= j < |cands| && cands[j].dist >= 0.0 ==> cands[r.value].dist <= cands[j].dist
    ensures r.Some? ==> forall j :: 0 <= j < r.value && cands[j].dist >= 0.0 ==> cands[r.value].dist < cands[j].dist
  {
    if |cands| == 0 then None
    else
      var n := |cands| - 1;
      var front := SelectPositive(cands[..n]);
      assert forall j :: 0 <= j < n ==> cands[..n][j] == cands[j];
      if cands[n].dist >= 0.0 && (front.None? || cands[n].dist < cands[front.value].dist) then Some(n)
      else front
  }

  /**
   * The candidate a negative contraction takes: after the stable ascending sort by distance, the
   * last one at a non-positive distance, i.e. the largest non-positive distance, latest on ties.
   */
  function SelectNegative(cands: seq<Candidate>): (r: Option<nat>)
    ensures r.None? <==> forall j :: 0 <= j < |cands| ==> cands[j].dist > 0.0
    ensures r.Some? ==> r.value < |cands| && cands[r.value].dist <= 0.0
    ensures r.Some? ==> forall j :: 0 <= j < |cands| && cands[j].dist <= 0.0 ==> cands[j].dist <= cands[r.value].dist
    ensures r.Some? ==> forall j :: r.value < j < |cands| && cands[j].dist <= 0.0 ==> cands[j].dist < cands[r.value].dist
  {
    if |cands| == 0 then None
    else
      var n := |cands| - 1;
      var front := SelectNegative(cands[..n]);
      assert forall j :: 0 <= j < n ==> cands[..n][j] == cands[j];
      if cands[n].dist <= 0.0 && (front.None? || cands[n].dist >= cands[front.value].dist) then Some(n)
      else front
  }

  /** Contraction.getPoint: the contraction point of the given type, if the configuration has one. */
  function GetPoint(c: ConfigurationView, cType: ContractionType, o: Oracle): (r: Option<Point>)
    ensures c.innerNormal.None? || c.prevTail.None? || c.nextHead.None? || c.trackPrev.None? || c.trackNext.None? ==> r.None?
    ensures r.Some? ==>
      (|| r.value == c.prevTail.value
       || r.value == c.nextHead.value
       || (c.innerIsBend && Some(r.value) == o.intersectLines(c.trackPrev.value, c.trackNext.value)))
  {
    if c.innerNormal.None? || c.prevTail.None? || c.nextHead.None? || c.trackPrev.None? || c.trackNext.None? then None
    else
      var T := if c.innerIsBend then o.intersectLines(c.trackPrev.value, c.trackNext.value) else None;
      var cands := Candidates(c, c.innerNormal.value, c.prevTail.value, c.nextHead.value, T);
      var pick := if cType == P then SelectPositive(cands) else SelectNegative(cands);
      if pick.None? then None else Some(cands[pick.value].point)
  }

  /** The track-intersection point T is taken only for a bend (an inner edge of inflection type B). */
  lemma TrackIntersectionOnlyForBends(c: ConfigurationView, cType: ContractionType, o: Oracle)
    requires !c.innerIsBend
    ensures GetPoint(c, cType, o).Some? ==> GetPoint(c, cType, o).value in {c.prevTail.value, c.nextHead.value}
  {
  }

  /**
   * Contraction.getAreaPoints: the contraction point and the inner edge, tail first when the
   * point lies on the previous outer edge, head first otherwise; plus the meeting point of the
   * opposite track with the moved inner edge when the point is the outer edge's far end.
   */
  function GetAreaPoints(c: ConfigurationView, point: Point, o: Oracle): (r: seq<Point>)
    ensures r == [] || 3 <= |r| <= 4
    ensures r != [] ==> r[0] == point && c.innerHead.Some?
    ensures r != [] ==> (r[1] == c.innerTail && r[2] == c.innerHead.value) || (r[1] == c.innerHead.value && r[2] == c.innerTail)
  {
    if c.outerPrevTail.None? || c.outerPrevHead.None? || c.outerNextHead.None? || c.innerAngle.None? || c.innerHead.None? then []
    else
      var outerEdgePrevSegment := LineSegment(c.outerPrevTail.value, c.outerPrevHead.value);
      var innerEdge' := Line(point, c.innerAngle.value);
      if IsOnLineSegment(point, outerEdgePrevSegment, o.sqrt) then
        var areaPoints := [point, c.innerTail, c.innerHead.value];
        var extra := if Equals(point, c.outerPrevTail.value) && c.trackNext.Some? then o.intersectLines(c.trackNext.value, innerEdge') else None;
        if extra.Some? then areaPoints + [extra.value] else areaPoints
      else
        var areaPoints := [point, c.innerHead.value, c.innerTail];
        var extra := if Equals(point, c.outerNextHead.value) && c.trackPrev.Some? then o.intersectLines(c.trackPrev.value, innerEdge') else None;
        if extra.Some? then areaPoints + [extra.value] else areaPoints
  }

  /** The boundary of the contraction area: from each area point to the next one, wrapping around. */
  function AreaSegments(areaPoints: seq<Point>): (r: seq<LineSegment>)
    ensures |r| == |areaPoints|
    ensures forall i :: 0 <= i < |r| ==> r[i].endPoint1 == areaPoints[i]
    ensures forall i :: 0 <= i < |r| ==> r[i].endPoint2 == areaPoints[(i + 1) % |areaPoints|]
  {
    seq(|areaPoints|, i requires 0 <= i < |areaPoints| =>
      LineSegment(areaPoints[i], areaPoints[Utilities.CrawlArray(areaPoints, i, 1).value]))
  }

  /** The segments form a closed chain: each one ends where the next one starts. */
  lemma AreaSegmentsAreClosed(areaPoints: seq<Point>)
    ensures var s := AreaSegments(areaPoints);
      forall i :: 0 <= i < |s| ==> s[i].endPoint2 == s[(i + 1) % |s|].endPoint1
  {
  }

  /** A JavaScript value that is either a point or a number. */
  datatype JsValue = PointValue(p: Point) | NumberValue(n: int)

  /** A segment as getBlockingEdges builds it: `new LineSegment(point, crawlArray(areaPoints, idx, +1))`. */
  datatype RawSegment = RawSegment(endPoint1: Point, endPoint2: JsValue)

  /** The area segments as the source builds them: the second end is the crawled index itself. */
  function AreaSegmentsAsWritten(areaPoints: seq<Point>): (r: seq<RawSegment>)
    ensures |r| == |areaPoints|
    ensures forall i :: 0 <= i < |r| ==> r[i].endPoint2.NumberValue?
  {
    seq(|areaPoints|, i requires 0 <= i < |areaPoints| =>
      RawSegment(areaPoints[i], NumberValue(Utilities.CrawlArray(areaPoints, i, 1).value)))
  }

  /** For a triangle, the first segment as written ends at the number 1, not at the second corner. */
  lemma AreaSegmentsAsWrittenEndAtIndices()
    ensures var tri := [Point(0.0, 0.0), Point(4.0, 0.0), Point(0.0, 4.0)];
      && AreaSegmentsAsWritten(tri)[0].endPoint2 == NumberValue(1)
      && AreaSegmentsAsWritten(tri)[0].endPoint2 != PointValue(tri[1])
      && AreaSegments(tri)[0].endPoint2 == tri[1]
  {
    var tri := [Point(0.0, 0.0), Point(4.0, 0.0), Point(0.0, 4.0)];
    assert Utilities.CrawlArray(tri, 0, 1).value == 1 % 3 == 1;
  }

  /** The boundary edge lies entirely in the contraction area. */
  predicate InsideArea(b: BoundaryEdge, areaPoints: seq<Point>)
  {
    forall i :: 0 <= i < |b.endpoints| ==> InPolygon(b.endpoints[i], areaPoints)
  }

  /** The boundary edge crosses area segment `s` at a point that is not an area point. */
  predicate Crosses(b: BoundaryEdge, s: LineSegment, areaPoints: seq<Point>, o: Oracle)
  {
    && b.segment.Some?
    && var x := o.intersectSegments(b.segment.value, s);
    && x.Some?
    && forall i :: 0 <= i < |areaPoints| ==> !Equals(areaPoints[i], x.value)
  }

  /** One entry of the boundary edge per area segment it crosses. */
  function Crossings(b: BoundaryEdge, segs: seq<LineSegment>, areaPoints: seq<Point>, o: Oracle): (r: seq<nat>)
    ensures forall x :: x in r ==> x == b.id
    ensures |r| > 0 <==> exists k :: 0 <= k < |segs| && Crosses(b, segs[k], areaPoints, o)
  {
    if |segs| == 0 then []
    else
      var n := |segs| - 1;
      var front := Crossings(b, segs[..n], areaPoints, o);
      assert forall k :: 0 <= k < n ==> segs[..n][k] == segs[k];
      if Crosses(b, segs[n], areaPoints, o) then front + [b.id] else front
  }

  /** The entries `b` contributes: one if it lies inside, one per crossing. */
  function Contribution(b: BoundaryEdge, segs: seq<LineSegment>, areaPoints: seq<Point>, o: Oracle): seq<nat>
  {
    (if InsideArea(b, areaPoints) then [b.id] else []) + Crossings(b, segs, areaPoints, o)
  }

  /** The entries of `f` for each element of `xs`, in order. */
  function Concat<T>(xs: seq<T>, f: T -> seq<nat>): seq<nat>
  {
    if |xs| == 0 then [] else Concat(xs[..|xs| - 1], f) + f(xs[|xs| - 1])
  }

  /** An entry of the concatenation comes from some element, and every element's entries are in it. */
  lemma {:induction false} ConcatMembers<T>(xs: seq<T>, f: T -> seq<nat>, id: nat)
    ensures id in Concat(xs, f) <==> exists j :: 0 <= j < |xs| && id in f(xs[j])
  {
    if |xs| > 0 {
      var n := |xs| - 1;
      var front := xs[..n];
      ConcatMembers(front, f, id);
      if id in Concat(xs, f) && id !in f(xs[n]) {
        var j :| 0 <= j < |front| && id in f(front[j]);
        assert xs[j] == front[j];
      }
      if exists j :: 0 <= j < |xs| && id in f(xs[j]) {
        var j :| 0 <= j < |xs| && id in f(xs[j]);
        if j < n {
          assert front[j] == xs[j];
        }
      }
    }
  }

  /** The blocking edges of X' in order, with repetitions. */
  function BlockingList(xs: seq<BoundaryEdge>, segs: seq<LineSegment>, areaPoints: seq<Point>, o: Oracle): seq<nat>
  {
    Concat(xs, b => Contribution(b, segs, areaPoints, o))
  }

  /** Boundary edge `b` blocks the contraction: it adds at least one entry. */
  predicate Blocks(b: BoundaryEdge, segs: seq<LineSegment>, areaPoints: seq<Point>, o: Oracle)
  {
    |Contribution(b, segs, areaPoints, o)| > 0
  }

  /** An edge blocks exactly when it lies inside the area or crosses one of its segments. */
  lemma BlocksMeans(b: BoundaryEdge, segs: seq<LineSegment>, areaPoints: seq<Point>, o: Oracle)
    ensures Blocks(b, segs, areaPoints, o) <==>
      InsideArea(b, areaPoints) || exists k :: 0 <= k < |segs| && Crosses(b, segs[k], areaPoints, o)
  {
  }

  /** An id is contributed by `b` exactly when it is `b`'s id and `b` blocks. */
  lemma ContributionMembers(b: BoundaryEdge, segs: seq<LineSegment>, areaPoints: seq<Point>, o: Oracle, id: nat)
    ensures id in Contribution(b, segs, areaPoints, o) <==> b.id == id && Blocks(b, segs, areaPoints, o)
  {
    var cb := Contribution(b, segs, areaPoints, o);
    if |cb| > 0 {
      assert cb[0] in cb;
    }
  }

  /** Some edge of `xs` with this id blocks. */
  ghost predicate HasBlocker(xs: seq<BoundaryEdge>, segs: seq<LineSegment>, areaPoints: seq<Point>, o: Oracle, id: nat)
  {
    exists j :: 0 <= j < |xs| && xs[j].id == id && Blocks(xs[j], segs, areaPoints, o)
  }

  /** An id is listed exactly when some edge of X' with that id blocks. */
  lemma BlockingListMembers(xs: seq<BoundaryEdge>, segs: seq<LineSegment>, areaPoints: seq<Point>, o: Oracle, id: nat)
    ensures id in BlockingList(xs, segs, areaPoints, o) <==> HasBlocker(xs, segs, areaPoints, o, id)
  {
    var f := b => Contribution(b, segs, areaPoints, o);
    ConcatMembers(xs, f, id);
    if id in BlockingList(xs, segs, areaPoints, o) {
      var j :| 0 <= j < |xs| && id in f(xs[j]);
      ContributionMembers(xs[j], segs, areaPoints, o, id);
    }
    if HasBlocker(xs, segs, areaPoints, o, id) {
      var j :| 0 <= j < |xs| && xs[j].id == id && Blocks(xs[j], segs, areaPoints, o);
      ContributionMembers(xs[j], segs, areaPoints, o, id);
      assert id in f(xs[j]);
    }
  }

  /** The list is empty exactly when no edge of X' blocks. */
  lemma {:induction false} BlockingListEmpty(xs: seq<BoundaryEdge>, segs: seq<LineSegment>, areaPoints: seq<Point>, o: Oracle)
    ensures |BlockingList(xs, segs, areaPoints, o)| == 0 <==> forall j :: 0 <= j < |xs| ==> !Blocks(xs[j], segs, areaPoints, o)
  {
    var l := BlockingList(xs, segs, areaPoints, o);
    if |l| > 0 {
      assert l[0] in l;
      BlockingListMembers(xs, segs, areaPoints, o, l[0]);
    } else {
      forall j | 0 <= j < |xs|
        ensures !Blocks(xs[j], segs, areaPoints, o)
      {
        BlockingListMembers(xs, segs, areaPoints, o, xs[j].id);
      }
    }
  }

  /** The concatenation grows by the entries of the next element. */
  lemma ConcatStep<T>(xs: seq<T>, i: nat, f: T -> seq<nat>)
    requires i < |xs|
    ensures Concat(xs[..i + 1], f) == Concat(xs[..i], f) + f(xs[i])
  {
    assert xs[..i + 1][..i] == xs[..i];
  }

  /**
   * The `every` test of getBlockingEdges, with the area points wrapped as a polygon: whether
   * each endpoint of the boundary edge lies in the area.
   */
  method EndpointsInArea(b: BoundaryEdge, areaPoints: seq<Point>) returns (inside: bool)
    ensures inside == InsideArea(b, areaPoints)
  {
    inside := true;
    var e := 0;
    while e < |b.endpoints|
      invariant 0 <= e <= |b.endpoints|
      invariant inside <==> forall k :: 0 <= k < e ==> InPolygon(b.endpoints[k], areaPoints)
    {
      var isIn := IsInPolygon(b.endpoints[e], areaPoints);
      inside := inside && isIn;
      e := e + 1;
    }
  }

  /** The inner `forEach` of getBlockingEdges: one entry per area segment the edge crosses off the area points. */
  method CrossingEntries(b: BoundaryEdge, segs: seq<LineSegment>, areaPoints: seq<Point>, o: Oracle) returns (entries: seq<nat>)
    ensures entries == Crossings(b, segs, areaPoints, o)
  {
    entries := [];
    var k := 0;
    while k < |segs|
      invariant 0 <= k <= |segs|
      invariant entries == Crossings(b, segs[..k], areaPoints, o)
    {
      var intersection := if b.segment.Some? then o.intersectSegments(b.segment.value, segs[k]) else None;
      if intersection.Some? && forall p :: 0 <= p < |areaPoints| ==> !Equals(areaPoints[p], intersection.value) {
        entries := entries + [b.id];
      }
      assert segs[..k + 1][..k] == segs[..k];
      k := k + 1;
    }
    assert segs[..k] == segs;
  }

  /** The entries one boundary edge adds: itself when inside the area, then itself per crossing. */
  method EdgeEntries(b: BoundaryEdge, segs: seq<LineSegment>, areaPoints: seq<Point>, o: Oracle) returns (entries: seq<nat>)
    ensures entries == Contribution(b, segs, areaPoints, o)
  {
    entries := [];
    var inside := EndpointsInArea(b, areaPoints);
    if inside {
      entries := entries + [b.id];
    }
    var crossings := CrossingEntries(b, segs, areaPoints, o);
    entries := entries + crossings;
  }

  /** Contraction.getBlockingEdges: the edges of X' inside the area, and once more per crossing. */
  method GetBlockingEdges(xPrime: seq<BoundaryEdge>, areaPoints: seq<Point>, o: Oracle) returns (blockingEdges: seq<nat>)
    ensures blockingEdges == BlockingList(xPrime, AreaSegments(areaPoints), areaPoints, o)
  {
    var contractionAreaP := AreaSegments(areaPoints);
    ghost var f := b => Contribution(b, contractionAreaP, areaPoints, o);
    blockingEdges := [];
    var i := 0;
    while i < |xPrime|
      invariant 0 <= i <= |xPrime|
      invariant blockingEdges == Concat(xPrime[..i], f)
    {
      var entries := EdgeEntries(xPrime[i], contractionAreaP, areaPoints, o);
      blockingEdges := blockingEdges + entries;
      ConcatStep(xPrime, i, f);
      i := i + 1;
    }
    assert xPrime[..i] == xPrime;
  }

  /** `isInPolygon` as called here: it reads `polygon.points`, which a plain array of points does not have. */
  function IsInPolygonOfArrayAsWritten(p: Point, areaPoints: seq<Point>): (r: Option<bool>)
    ensures r.None?
  {
    None
  }

  /**
   * The `every` test as written: `every` calls its test on the first endpoint, so any boundary edge with
   * an endpoint throws (None) instead of answering.
   */
  function InsideAreaAsWritten(b: BoundaryEdge, areaPoints: seq<Point>): (r: Option<bool>)
    ensures |b.endpoints| > 0 ==> r.None?
    ensures |b.endpoints| == 0 ==> r == Some(true)
  {
    // the exception of the first call ends the `every`
    if |b.endpoints| == 0 then Some(true) else IsInPolygonOfArrayAsWritten(b.endpoints[0], areaPoints)
  }

  /** An area with a proper edge inside it: as written the test throws, corrected it reports the edge as inside. */
  lemma InsideAreaAsWrittenThrows()
    ensures var area := [Point(0.0, 0.0), Point(4.0, 0.0), Point(0.0, 4.0)];
      var b := BoundaryEdge(7, [Point(1.0, 1.0), Point(2.0, 1.0)], Some(LineSegment(Point(1.0, 1.0), Point(2.0, 1.0))));
      && InsideAreaAsWritten(b, area).None?
      && InsideArea(b, area)
  {
    var area := [Point(0.0, 0.0), Point(4.0, 0.0), Point(0.0, 4.0)];
    assert NextIndex(3, 0) == 1 && NextIndex(3, 1) == 2 && NextIndex(3, 2) == 0;
    assert EdgeValue(Point(1.0, 1.0), area, 0) == 4.0 && EdgeValue(Point(2.0, 1.0), area, 0) == 4.0;
    assert EdgeValue(Point(1.0, 1.0), area, 1) == 8.0 && EdgeValue(Point(2.0, 1.0), area, 1) == 4.0;
    assert EdgeValue(Point(1.0, 1.0), area, 2) == 4.0 && EdgeValue(Point(2.0, 1.0), area, 2) == 8.0;
  }

  datatype Contraction = Contraction(
    cType: ContractionType,
    point: Point,
    areaPoints: seq<Point>,
    area: real,
    blockingEdges: seq<nat>)

  /** Contraction.constructor: area points, their area and the blocking edges of X'. */
  method NewContraction(c: ConfigurationView, cType: ContractionType, point: Point, o: Oracle) returns (r: Contraction)
    ensures r.cType == cType && r.point == point
    ensures r.areaPoints == GetAreaPoints(c, point, o)
    ensures r.area == Utilities.Abs(Utilities.SignedArea(r.areaPoints))
    ensures r.blockingEdges == BlockingList(c.xPrime, AreaSegments(r.areaPoints), r.areaPoints, o)
  {
    var areaPoints := GetAreaPoints(c, point, o);
    var area := Utilities.GetPolygonArea(areaPoints);
    var blocking := GetBlockingEdges(c.xPrime, areaPoints, o);
    r := Contraction(cType, point, areaPoints, area, blocking);
  }

  /** Contraction.initialize: a contraction exactly when the configuration has a contraction point of that type. */
  method Initialize(c: ConfigurationView, cType: ContractionType, o: Oracle) returns (r: Option<Contraction>)
    ensures r.Some? <==> GetPoint(c, cType, o).Some?
    ensures r.Some? ==> r.value.cType == cType && r.value.point == GetPoint(c, cType, o).value
    ensures r.Some? ==> r.value.blockingEdges == BlockingList(c.xPrime, AreaSegments(r.value.areaPoints), r.value.areaPoints, o)
  {
    var point := GetPoint(c, cType, o);
    if point.None? {
      return None;
    }
    var contraction := NewContraction(c, cType, point.value, o);
    r := Some(contraction);
  }

  /** Contraction.isFeasible: no edge blocks. */
  predicate IsFeasible(k: Contraction)
  {
    |k.blockingEdges| == 0
  }

  /** A constructed contraction is feasible exactly when no edge of X' blocks its area. */
  lemma FeasibleIffUnblocked(c: ConfigurationView, k: Contraction, o: Oracle)
    requires k.blockingEdges == BlockingList(c.xPrime, AreaSegments(k.areaPoints), k.areaPoints, o)
    ensures IsFeasible(k) <==>
      forall j :: 0 <= j < |c.xPrime| ==> !Blocks(c.xPrime[j], AreaSegments(k.areaPoints), k.areaPoints, o)
  {
    BlockingListEmpty(c.xPrime, AreaSegments(k.areaPoints), k.areaPoints, o);
  }

  /** Contraction.isComplementary: the two contractions have different types. */
  predicate IsComplementary(k: Contraction, other: Contraction)
  {
    k.cType != other.cType
  }

  /** Complementarity is irreflexive and symmetric, and a contraction's complement has the other type. */
  lemma ComplementaryIsOpposite(k: Contraction, other: Contraction)
    ensures !IsComplementary(k, k)
    ensures IsComplementary(k, other) == IsComplementary(other, k)
    ensures IsComplementary(k, other) <==> {k.cType, other.cType} == {P, N}
  {
  }
}
