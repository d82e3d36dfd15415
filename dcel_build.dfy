/**
 * Dcel.fromGeoJSON (src/lib/DCEL/Dcel.ts) over in-memory polygon rings: vertices for every ring
 * point, twin-paired half-edges for every ring edge, the links around every vertex, a face for
 * every ring and, last, the unbounded face for every edge still without one.
 *
 * The clockwise order `Vertex.sortEdges` gives a vertex's edges is a parameter, required to be a
 * reordering of the edges it is given.
 */
module DcelBuild {
  import opened Wrappers
  import opened Geometry
  import opened Dcel

  /** A feature: only polygons and multipolygons take part; a polygon is a multipolygon of one polygon. */
  datatype Feature = OtherGeometry | Polygons(polygons: seq<seq<seq<Point>>>)

  /** The polygons of all polygon features, in order (the `reduce` at the top of fromGeoJSON). */
  function AllPolygons(features: seq<Feature>): (r: seq<seq<seq<Point>>>)
  {
    if |features| == 0 then []
    else
      var front := AllPolygons(features[..|features| - 1]);
      match features[|features| - 1]
      case OtherGeometry => front
      case Polygons(ps) => front + ps
  }

  /** A ring the way fromGeoJSON walks it: inner rings (index > 0) reversed. */
  function Oriented<T>(ring: seq<T>, ringIdx: nat): (r: seq<T>)
    ensures |r| == |ring|
  {
    if ringIdx > 0 then Reverse(ring) else ring
  }

  /** `ring.slice(0, -1)`: the ring without its closing point. */
  function Open<T>(ring: seq<T>): (r: seq<T>)
    ensures |ring| > 0 ==> r == ring[..|ring| - 1]
    ensures |ring| == 0 ==> r == []
  {
    if |ring| == 0 then [] else ring[..|ring| - 1]
  }

  /** The rings of one polygon as the pairing loop walks them: oriented, then opened. */
  function PolygonRings<T>(polygon: seq<seq<T>>): (r: seq<seq<T>>)
    ensures |r| == |polygon| && forall i :: 0 <= i < |polygon| ==> r[i] == Open(Oriented(polygon[i], i))
  {
    seq(|polygon|, i requires 0 <= i < |polygon| => Open(Oriented(polygon[i], i)))
  }

  /** The rings of all polygons, oriented and opened, in the order the pairing loops visit them. */
  function Rings<T>(polygons: seq<seq<seq<T>>>): seq<seq<T>>
  {
    if |polygons| == 0 then [] else Rings(polygons[..|polygons| - 1]) + PolygonRings(polygons[|polygons| - 1])
  }

  // ----- phase 1: vertices -----

  /** The vertex ids stand for the ring points: same count, same coordinates. */
  ghost predicate MapsTo(vs: seq<Vertex>, ids: seq<nat>, ring: seq<Point>)
  {
    |ids| == |ring| && forall k :: 0 <= k < |ids| ==> ids[k] < |vs| && vs[ids[k]].x == ring[k].x && vs[ids[k]].y == ring[k].y
  }

  ghost predicate PolygonMapsTo(vs: seq<Vertex>, ids: seq<seq<nat>>, polygon: seq<seq<Point>>)
  {
    |ids| == |polygon| && forall r :: 0 <= r < |ids| ==> MapsTo(vs, ids[r], polygon[r])
  }

  ghost predicate PolygonsMapTo(vs: seq<Vertex>, ids: seq<seq<seq<nat>>>, polygons: seq<seq<seq<Point>>>)
  {
    |ids| == |polygons| && forall p :: 0 <= p < |ids| ==> PolygonMapsTo(vs, ids[p], polygons[p])
  }

  /** Two vertex arenas with the same coordinates. */
  ghost predicate SameCoordinates(vs1: seq<Vertex>, vs2: seq<Vertex>)
  {
    |vs1| == |vs2| && forall v :: 0 <= v < |vs1| ==> vs2[v].x == vs1[v].x && vs2[v].y == vs1[v].y
  }

  /** The ids keep standing for the points while vertices are only appended or keep their coordinates. */
  lemma MapsToKept(vs1: seq<Vertex>, vs2: seq<Vertex>, ids: seq<seq<seq<nat>>>, polygons: seq<seq<seq<Point>>>)
    requires PolygonsMapTo(vs1, ids, polygons)
    requires |vs1| <= |vs2| && forall v :: 0 <= v < |vs1| ==> vs2[v].x == vs1[v].x && vs2[v].y == vs1[v].y
    ensures PolygonsMapTo(vs2, ids, polygons)
  {
    forall p | 0 <= p < |ids| ensures PolygonMapsTo(vs2, ids[p], polygons[p]) {
      forall r | 0 <= r < |ids[p]| ensures MapsTo(vs2, ids[p][r], polygons[p][r]) {
        assert MapsTo(vs1, ids[p][r], polygons[p][r]);
      }
    }
  }

  /** Every point of the polygons has a vertex with its coordinates. */
  ghost predicate HasVertexFor(vs: seq<Vertex>, polygons: seq<seq<seq<Point>>>)
  {
    forall p, r, k :: 0 <= p < |polygons| && 0 <= r < |polygons[p]| && 0 <= k < |polygons[p][r]| ==>
      FindVertexIn(vs, polygons[p][r][k].x, polygons[p][r][k].y).Some?
  }

  lemma MappedPointsHaveVertices(vs: seq<Vertex>, ids: seq<seq<seq<nat>>>, polygons: seq<seq<seq<Point>>>)
    requires PolygonsMapTo(vs, ids, polygons)
    ensures HasVertexFor(vs, polygons)
  {
    forall p, r, k | 0 <= p < |polygons| && 0 <= r < |polygons[p]| && 0 <= k < |polygons[p][r]|
      ensures FindVertexIn(vs, polygons[p][r][k].x, polygons[p][r][k].y).Some?
    {
      assert PolygonMapsTo(vs, ids[p], polygons[p]);
      assert MapsTo(vs, ids[p][r], polygons[p][r]);
      var v := ids[p][r][k];
      assert vs[v].x == polygons[p][r][k].x && vs[v].y == polygons[p][r][k].y;
    }
  }

  lemma HasVertexForKept(vs1: seq<Vertex>, vs2: seq<Vertex>, polygons: seq<seq<seq<Point>>>)
    requires HasVertexFor(vs1, polygons) && SameCoordinates(vs1, vs2)
    ensures HasVertexFor(vs2, polygons)
  {
    forall p, r, k | 0 <= p < |polygons| && 0 <= r < |polygons[p]| && 0 <= k < |polygons[p][r]|
      ensures FindVertexIn(vs2, polygons[p][r][k].x, polygons[p][r][k].y).Some?
    {
      var q := polygons[p][r][k];
      var i := FindVertexIn(vs1, q.x, q.y).value;
      assert vs2[i].x == q.x && vs2[i].y == q.y;
    }
  }

  /** `findVertex(x, y) || makeVertex(x, y)` for every point of one ring. */
  method RingVertices(d: Dcel, ring: seq<Point>) returns (ids: seq<nat>)
    requires d.Valid()
    modifies d`vertices
    ensures d.Valid()
    ensures old(d.vertices) <= d.vertices
    ensures MapsTo(d.vertices, ids, ring)
  {
    ids := [];
    var k := 0;
    while k < |ring|
      invariant 0 <= k <= |ring|
      invariant d.Valid()
      invariant old(d.vertices) <= d.vertices
      invariant MapsTo(d.vertices, ids, ring[..k])
    {
      ghost var before := d.vertices;
      var found := d.FindVertex(ring[k].x, ring[k].y);
      var v: nat;
      if found.Some? {
        v := found.value;
      } else {
        v := d.MakeVertex(ring[k].x, ring[k].y);
      }
      assert before <= d.vertices;
      ids := ids + [v];
      k := k + 1;
    }
    assert ring[..k] == ring;
  }

  /** The vertex ids of every ring of one polygon. */
  method PolygonVertices(d: Dcel, polygon: seq<seq<Point>>) returns (ids: seq<seq<nat>>)
    requires d.Valid()
    modifies d`vertices
    ensures d.Valid()
    ensures old(d.vertices) <= d.vertices
    ensures PolygonMapsTo(d.vertices, ids, polygon)
  {
    ids := [];
    var r := 0;
    while r < |polygon|
      invariant 0 <= r <= |polygon|
      invariant d.Valid()
      invariant old(d.vertices) <= d.vertices
      invariant PolygonMapsTo(d.vertices, ids, polygon[..r])
    {
      ghost var before := d.vertices;
      var ringIds := RingVertices(d, polygon[r]);
      forall q | 0 <= q < |ids| ensures MapsTo(d.vertices, ids[q], polygon[q]) {
        assert MapsTo(before, ids[q], polygon[..r][q]);
      }
      ids := ids + [ringIds];
      r := r + 1;
    }
    assert polygon[..r] == polygon;
  }

  /** Phase 1: the vertex ids of all polygons of all polygon features. */
  method AddVertices(d: Dcel, features: seq<Feature>) returns (ids: seq<seq<seq<nat>>>)
    requires d.Valid()
    modifies d`vertices
    ensures d.Valid()
    ensures old(d.vertices) <= d.vertices
    ensures PolygonsMapTo(d.vertices, ids, AllPolygons(features))
  {
    ids := [];
    var f := 0;
    while f < |features|
      invariant 0 <= f <= |features|
      invariant d.Valid()
      invariant old(d.vertices) <= d.vertices
      invariant PolygonsMapTo(d.vertices, ids, AllPolygons(features[..f]))
    {
      assert features[..f + 1][..f] == features[..f];
      if features[f].Polygons? {
        var polygons := features[f].polygons;
        var p := 0;
        ghost var start := ids;
        while p < |polygons|
          invariant 0 <= p <= |polygons|
          invariant d.Valid()
          invariant old(d.vertices) <= d.vertices
          invariant PolygonsMapTo(d.vertices, ids, AllPolygons(features[..f]) + polygons[..p])
        {
          ghost var before := d.vertices;
          var polygonIds := PolygonVertices(d, polygons[p]);
          MapsToKept(before, d.vertices, ids, AllPolygons(features[..f]) + polygons[..p]);
          assert (AllPolygons(features[..f]) + polygons[..p]) + [polygons[p]] == AllPolygons(features[..f]) + polygons[..p + 1];
          ids := ids + [polygonIds];
          p := p + 1;
        }
        assert polygons[..p] == polygons;
      }
      f := f + 1;
    }
    assert features[..f] == features;
  }

  // ----- phase 2: twin-paired ring edges -----

  /** The twin assignment `halfEdge.twin = twinHalfEdge; twinHalfEdge.twin = halfEdge`. */
  function SetTwins(hs: seq<HalfEdge>, he: nat, tw: nat): (r: seq<HalfEdge>)
    requires he < |hs| && tw < |hs|
    ensures SameEdgeKeys(hs, r)
    ensures r[he].twin == Some(tw) && r[tw].twin == Some(he)
    ensures forall e :: 0 <= e < |hs| && e != he && e != tw ==> r[e] == hs[e]
  {
    var hs1 := hs[he := hs[he].(twin := Some(tw))];
    hs1[tw := hs1[tw].(twin := Some(he))]
  }

  /** Twinning two half-edges with swapped keys keeps every twin running the other way. */
  lemma SetTwinsPaired(hs: seq<HalfEdge>, he: nat, tw: nat)
    requires he < |hs| && tw < |hs| && Paired(hs)
    requires hs[tw].tail == hs[he].head && hs[tw].head == hs[he].tail
    ensures Paired(SetTwins(hs, he, tw))
  {
  }

  /** Half-edge `x` of `hs` was already there in `hs0`, unchanged. */
  ghost predicate KeptAt(hs0: seq<HalfEdge>, hs: seq<HalfEdge>, x: int)
  {
    0 <= x < |hs| && x < |hs0| && hs[x] == hs0[x]
  }

  /** Every half-edge other than `he` and `tw` was already there, unchanged. */
  ghost predicate KeptBut(hs0: seq<HalfEdge>, hs: seq<HalfEdge>, he: nat, tw: nat)
  {
    forall x :: 0 <= x < |hs| && x != he && x != tw ==> KeptAt(hs0, hs, x)
  }

  /** Twinning the (at most two) edges appended to a fully twinned arena twins every edge. */
  lemma TwinNewEdges(vs: seq<Vertex>, hs0: seq<HalfEdge>, hs: seq<HalfEdge>, fs: seq<Face>, he: nat, tw: nat)
    requires Wf(vs, hs, fs) && Paired(hs) && AllTwinned(hs0)
    requires he < |hs| && tw < |hs|
    requires KeptBut(hs0, hs, he, tw)
    requires hs[tw].tail == hs[he].head && hs[tw].head == hs[he].tail
    ensures Wf(vs, SetTwins(hs, he, tw), fs) && Paired(SetTwins(hs, he, tw)) && AllTwinned(SetTwins(hs, he, tw))
  {
    var hs' := SetTwins(hs, he, tw);
    SetTwinsPaired(hs, he, tw);
    forall x | 0 <= x < |hs'| ensures hs'[x].twin.Some? {
      if x != he && x != tw {
        assert hs'[x] == hs[x] && KeptAt(hs0, hs, x);
      }
    }
    forall x | 0 <= x < |hs'| ensures RefsOk(hs'[x], |vs|, |hs'|, |fs|) {
      assert RefsOk(hs[x], |vs|, |hs|, |fs|);
    }
    SameEdgeKeysWf(vs, hs, hs', fs);
  }

  lemma SameCoordinatesTransitive(vs0: seq<Vertex>, vs1: seq<Vertex>, vs2: seq<Vertex>)
    requires SameCoordinates(vs0, vs1) && SameCoordinates(vs1, vs2)
    ensures SameCoordinates(vs0, vs2)
  {
    forall v | 0 <= v < |vs0| ensures vs2[v].x == vs0[v].x && vs2[v].y == vs0[v].y {
      assert vs1[v].x == vs0[v].x && vs1[v].y == vs0[v].y;
    }
  }

  /** Two steps that each append at most one half-edge, `he` then `tw`, keep every other half-edge. */
  lemma AppendsKeep(hs0: seq<HalfEdge>, hs1: seq<HalfEdge>, hs2: seq<HalfEdge>, he: nat, tw: nat)
    requires hs0 <= hs1 && |hs1| <= |hs0| + 1 && (|hs1| > |hs0| ==> he == |hs0|)
    requires hs1 <= hs2 && |hs2| <= |hs1| + 1 && (|hs2| > |hs1| ==> tw == |hs1|)
    ensures KeptBut(hs0, hs2, he, tw)
  {
    forall x | 0 <= x < |hs2| && x != he && x != tw ensures KeptAt(hs0, hs2, x) {
      assert x < |hs1| && hs2[x] == hs1[x];
    }
  }

  /** The half-edges from tail to head and back, created where missing. */
  method MakePair(d: Dcel, tail: nat, head: nat) returns (he: nat, tw: nat)
    requires d.Valid() && Paired(d.halfEdges)
    requires tail < |d.vertices| && head < |d.vertices|
    modifies d`vertices, d`halfEdges
    ensures d.Valid() && Paired(d.halfEdges)
    ensures SameCoordinates(old(d.vertices), d.vertices)
    ensures he < |d.halfEdges| && tw < |d.halfEdges|
    ensures d.halfEdges[he].tail == tail && d.halfEdges[he].head == head
    ensures d.halfEdges[tw].tail == head && d.halfEdges[tw].head == tail
    ensures KeptBut(old(d.halfEdges), d.halfEdges, he, tw)
    ensures old(d.halfEdges) <= d.halfEdges
  {
    he := d.MakeHalfEdge(tail, head);
    ghost var hs1 := d.halfEdges;
    ghost var vs1 := d.vertices;
    tw := d.MakeHalfEdge(head, tail);
    assert d.halfEdges[he] == hs1[he];
    AppendsKeep(old(d.halfEdges), hs1, d.halfEdges, he, tw);
    assert SameCoordinates(vs1, d.vertices);
    SameCoordinatesTransitive(old(d.vertices), vs1, d.vertices);
  }

  /** `hs2` keeps every half-edge of `hs1` at its index, with its key. */
  ghost predicate KeysKept(hs1: seq<HalfEdge>, hs2: seq<HalfEdge>)
  {
    |hs1| <= |hs2| && forall e :: 0 <= e < |hs1| ==> hs2[e].tail == hs1[e].tail && hs2[e].head == hs1[e].head
  }

  /** There is a half-edge from `tail` to `head`: `findHalfEdge(tail, head)` finds it. */
  ghost predicate HasEdge(hs: seq<HalfEdge>, tail: nat, head: nat)
  {
    FindHalfEdgeIn(hs, tail, head).Some?
  }

  /** A half-edge that is there stays there while the keys are kept. */
  lemma HasEdgeKept(hs1: seq<HalfEdge>, hs2: seq<HalfEdge>, tail: nat, head: nat)
    requires KeysKept(hs1, hs2) && HasEdge(hs1, tail, head)
    ensures HasEdge(hs2, tail, head)
  {
    var i := FindHalfEdgeIn(hs1, tail, head).value;
    assert hs2[i].tail == tail && hs2[i].head == head;
  }

  /** The half-edge from `tail` to `head` exists and is twinned with the half-edge back. */
  ghost predicate EdgeMade(hs: seq<HalfEdge>, tail: nat, head: nat)
  {
    var e := FindHalfEdgeIn(hs, tail, head);
    e.Some? && hs[e.value].twin.Some? && hs[e.value].twin == FindHalfEdgeIn(hs, head, tail)
  }

  /** In a paired arena with every edge twinned, a half-edge that is there is twinned with the one back. */
  lemma HasEdgeIsMade(hs: seq<HalfEdge>, tail: nat, head: nat)
    requires EdgeKeysDistinct(hs) && Paired(hs) && AllTwinned(hs) && HasEdge(hs, tail, head)
    ensures EdgeMade(hs, tail, head)
  {
    var e := FindHalfEdgeIn(hs, tail, head).value;
    var t := hs[e].twin.value;
    assert hs[t].tail == head && hs[t].head == tail;
    var back := FindHalfEdgeIn(hs, head, tail);
    EdgeKeyDetermines(hs, t, back.value);
  }

  /** Position `k` of the ring runs from `a` to `b` or from `b` to `a`: (a, b) is that ring edge or its twin. */
  predicate RingEdgeAt<T(==)>(ring: seq<T>, k: nat, a: T, b: T)
  {
    k < |ring| && var n := ring[Succ(k, |ring|)];
    ((ring[k] == a && n == b) || (ring[k] == b && n == a))
  }

  /** (a, b) is an edge of the ring, or its twin. */
  ghost predicate OnRing<T>(ring: seq<T>, a: T, b: T)
  {
    exists k :: RingEdgeAt(ring, k, a, b)
  }

  /** Every half-edge from index `from` on is an edge of the ring or its twin. */
  ghost predicate MadeFromRing(hs: seq<HalfEdge>, from: nat, points: seq<nat>)
  {
    forall x :: from <= x < |hs| ==> OnRing(points, hs[x].tail, hs[x].head)
  }

  /** Every edge of the ring is a half-edge. */
  ghost predicate RingPresent(hs: seq<HalfEdge>, points: seq<nat>)
  {
    forall k :: 0 <= k < |points| ==> HasEdge(hs, points[k], points[Succ(k, |points|)])
  }

  /** One ring edge: the half-edge from tail to head, the one back, and their twin links. */
  method PairEdge(d: Dcel, tail: nat, head: nat) returns (he: nat, tw: nat)
    requires d.Valid() && Paired(d.halfEdges) && AllTwinned(d.halfEdges)
    requires tail < |d.vertices| && head < |d.vertices|
    modifies d`vertices, d`halfEdges
    ensures d.Valid() && Paired(d.halfEdges) && AllTwinned(d.halfEdges)
    ensures SameCoordinates(old(d.vertices), d.vertices)
    ensures he < |d.halfEdges| && tw < |d.halfEdges|
    ensures d.halfEdges[he].tail == tail && d.halfEdges[he].head == head
    ensures d.halfEdges[tw].tail == head && d.halfEdges[tw].head == tail
    ensures d.halfEdges[he].twin == Some(tw) && d.halfEdges[tw].twin == Some(he)
    ensures KeptBut(old(d.halfEdges), d.halfEdges, he, tw)
    ensures KeysKept(old(d.halfEdges), d.halfEdges)
  {
    ghost var hs0 := d.halfEdges;
    he, tw := MakePair(d, tail, head);
    TwinNewEdges(d.vertices, hs0, d.halfEdges, d.faces, he, tw);
    SetTwinsKeptBut(hs0, d.halfEdges, he, tw);
    d.halfEdges := SetTwins(d.halfEdges, he, tw);
  }

  /** Twinning `he` and `tw` changes no other half-edge. */
  lemma SetTwinsKeptBut(hs0: seq<HalfEdge>, hs: seq<HalfEdge>, he: nat, tw: nat)
    requires he < |hs| && tw < |hs| && KeptBut(hs0, hs, he, tw)
    ensures KeptBut(hs0, SetTwins(hs, he, tw), he, tw)
  {
    var hs' := SetTwins(hs, he, tw);
    forall x | 0 <= x < |hs'| && x != he && x != tw ensures KeptAt(hs0, hs', x) {
      assert KeptAt(hs0, hs, x) && hs'[x] == hs[x];
    }
  }

  /**
   * The ring edges of one ring of vertex ids (already oriented and opened). Afterwards every
   * ring edge is a half-edge, and every half-edge added is a ring edge or its twin.
   */
  method PairRing(d: Dcel, points: seq<nat>)
    requires d.Valid() && Paired(d.halfEdges) && AllTwinned(d.halfEdges)
    requires forall k :: 0 <= k < |points| ==> points[k] < |d.vertices|
    modifies d`vertices, d`halfEdges
    ensures d.Valid() && Paired(d.halfEdges) && AllTwinned(d.halfEdges)
    ensures SameCoordinates(old(d.vertices), d.vertices)
    ensures KeysKept(old(d.halfEdges), d.halfEdges)
    ensures RingPresent(d.halfEdges, points)
    ensures MadeFromRing(d.halfEdges, |old(d.halfEdges)|, points)
  {
    var idx := 0;
    while idx < |points|
      invariant 0 <= idx <= |points|
      invariant d.Valid() && Paired(d.halfEdges) && AllTwinned(d.halfEdges)
      invariant SameCoordinates(old(d.vertices), d.vertices)
      invariant KeysKept(old(d.halfEdges), d.halfEdges)
      invariant forall k :: 0 <= k < idx ==> HasEdge(d.halfEdges, points[k], points[Succ(k, |points|)])
      invariant MadeFromRing(d.halfEdges, |old(d.halfEdges)|, points)
    {
      var tail := points[idx];
      var head := points[Succ(idx, |points|)];
      ghost var hs1 := d.halfEdges;
      var he, tw := PairEdge(d, tail, head);
      PairStep(old(d.halfEdges), hs1, d.halfEdges, points, idx, he, tw);
      idx := idx + 1;
    }
  }

  /** One step of the pairing loop keeps what the loop has made and adds the ring edge at `idx`. */
  lemma PairStep(hs0: seq<HalfEdge>, hs1: seq<HalfEdge>, hs2: seq<HalfEdge>, points: seq<nat>, idx: nat, he: nat, tw: nat)
    requires idx < |points| && KeysKept(hs0, hs1) && KeysKept(hs1, hs2) && KeptBut(hs1, hs2, he, tw)
    requires he < |hs2| && tw < |hs2|
    requires hs2[he].tail == points[idx] && hs2[he].head == points[Succ(idx, |points|)]
    requires hs2[tw].tail == points[Succ(idx, |points|)] && hs2[tw].head == points[idx]
    requires forall k :: 0 <= k < idx ==> HasEdge(hs1, points[k], points[Succ(k, |points|)])
    requires MadeFromRing(hs1, |hs0|, points)
    ensures KeysKept(hs0, hs2)
    ensures forall k :: 0 <= k < idx + 1 ==> HasEdge(hs2, points[k], points[Succ(k, |points|)])
    ensures MadeFromRing(hs2, |hs0|, points)
  {
    forall k | 0 <= k < idx + 1 ensures HasEdge(hs2, points[k], points[Succ(k, |points|)]) {
      if k < idx {
        HasEdgeKept(hs1, hs2, points[k], points[Succ(k, |points|)]);
      } else {
        assert hs2[he].tail == points[k] && hs2[he].head == points[Succ(k, |points|)];
      }
    }
    assert KeysKept(hs0, hs2);
    forall x | |hs0| <= x < |hs2| ensures OnRing(points, hs2[x].tail, hs2[x].head) {
      if x == he {
        assert RingEdgeAt(points, idx, hs2[x].tail, hs2[x].head);
      } else if x == tw {
        assert RingEdgeAt(points, idx, hs2[x].tail, hs2[x].head);
      } else {
        assert KeptAt(hs1, hs2, x);
        var k :| RingEdgeAt(points, k, hs1[x].tail, hs1[x].head);
        assert RingEdgeAt(points, k, hs2[x].tail, hs2[x].head);
      }
    }
  }

  ghost predicate IdsInRange(ids: seq<seq<seq<nat>>>, n: nat)
  {
    forall p, r, k :: 0 <= p < |ids| && 0 <= r < |ids[p]| && 0 <= k < |ids[p][r]| ==> ids[p][r][k] < n
  }

  lemma OpenOrientedInRange(polygon: seq<seq<nat>>, n: nat, r: nat)
    requires r < |polygon| && forall k :: 0 <= k < |polygon[r]| ==> polygon[r][k] < n
    ensures var points := Open(Oriented(polygon[r], r));
      forall k :: 0 <= k < |points| ==> points[k] < n
  {
    var ring := polygon[r];
    var o := Oriented(ring, r);
    assert forall k :: 0 <= k < |o| ==> o[k] in ring by {
      if r > 0 {
        forall k | 0 <= k < |o| ensures o[k] in ring {
          assert o[k] == ring[|ring| - 1 - k];
        }
      }
    }
  }

  /** (a, b) is an edge of one of the rings, or its twin. */
  ghost predicate OnRings<T>(rings: seq<seq<T>>, a: T, b: T)
  {
    exists i :: 0 <= i < |rings| && OnRing(rings[i], a, b)
  }

  /** Every half-edge from index `from` on is an edge of one of the rings, or its twin. */
  ghost predicate MadeFromRings(hs: seq<HalfEdge>, from: nat, rings: seq<seq<nat>>)
  {
    forall x :: from <= x < |hs| ==> OnRings(rings, hs[x].tail, hs[x].head)
  }

  /** Every edge of every ring is a half-edge. */
  ghost predicate RingsPresent(hs: seq<HalfEdge>, rings: seq<seq<nat>>)
  {
    forall i :: 0 <= i < |rings| ==> RingPresent(hs, rings[i])
  }

  /** Pairing more rings keeps the rings paired before and their half-edges, and adds the new rings'. */
  lemma AddRings(hs1: seq<HalfEdge>, hs2: seq<HalfEdge>, from: nat, rings: seq<seq<nat>>, more: seq<seq<nat>>)
    requires from <= |hs1| && KeysKept(hs1, hs2)
    requires MadeFromRings(hs1, from, rings) && RingsPresent(hs1, rings)
    requires MadeFromRings(hs2, |hs1|, more) && RingsPresent(hs2, more)
    ensures MadeFromRings(hs2, from, rings + more) && RingsPresent(hs2, rings + more)
  {
    var all := rings + more;
    forall x | from <= x < |hs2| ensures OnRings(all, hs2[x].tail, hs2[x].head) {
      if x < |hs1| {
        assert OnRings(rings, hs1[x].tail, hs1[x].head);
        var i :| 0 <= i < |rings| && OnRing(rings[i], hs1[x].tail, hs1[x].head);
        assert all[i] == rings[i];
      } else {
        assert OnRings(more, hs2[x].tail, hs2[x].head);
        var i :| 0 <= i < |more| && OnRing(more[i], hs2[x].tail, hs2[x].head);
        assert all[|rings| + i] == more[i];
      }
    }
    forall i | 0 <= i < |all| ensures RingPresent(hs2, all[i]) {
      if i < |rings| {
        assert all[i] == rings[i] && RingPresent(hs1, rings[i]);
        forall k | 0 <= k < |rings[i]| ensures HasEdge(hs2, rings[i][k], rings[i][Succ(k, |rings[i]|)]) {
          HasEdgeKept(hs1, hs2, rings[i][k], rings[i][Succ(k, |rings[i]|)]);
        }
      } else {
        assert all[i] == more[i - |rings|];
      }
    }
  }

  /** One ring, as a list of one ring. */
  lemma OneRing(hs: seq<HalfEdge>, from: nat, ring: seq<nat>)
    requires MadeFromRing(hs, from, ring) && RingPresent(hs, ring)
    ensures MadeFromRings(hs, from, [ring]) && RingsPresent(hs, [ring])
  {
    forall x | from <= x < |hs| ensures OnRings([ring], hs[x].tail, hs[x].head) {
      assert [ring][0] == ring;
    }
  }

  /** The rings of one polygon, each oriented and opened. */
  method PairPolygon(d: Dcel, polygon: seq<seq<nat>>)
    requires d.Valid() && Paired(d.halfEdges) && AllTwinned(d.halfEdges)
    requires forall r, k :: 0 <= r < |polygon| && 0 <= k < |polygon[r]| ==> polygon[r][k] < |d.vertices|
    modifies d`vertices, d`halfEdges
    ensures d.Valid() && Paired(d.halfEdges) && AllTwinned(d.halfEdges)
    ensures SameCoordinates(old(d.vertices), d.vertices)
    ensures KeysKept(old(d.halfEdges), d.halfEdges)
    ensures RingsPresent(d.halfEdges, PolygonRings(polygon))
    ensures MadeFromRings(d.halfEdges, |old(d.halfEdges)|, PolygonRings(polygon))
  {
    var r := 0;
    while r < |polygon|
      invariant 0 <= r <= |polygon|
      invariant d.Valid() && Paired(d.halfEdges) && AllTwinned(d.halfEdges)
      invariant SameCoordinates(old(d.vertices), d.vertices)
      invariant KeysKept(old(d.halfEdges), d.halfEdges)
      invariant RingsPresent(d.halfEdges, PolygonRings(polygon)[..r])
      invariant MadeFromRings(d.halfEdges, |old(d.halfEdges)|, PolygonRings(polygon)[..r])
    {
      ghost var hs1 := d.halfEdges;
      var ring := Open(Oriented(polygon[r], r));
      OpenOrientedInRange(polygon, |d.vertices|, r);
      PairRing(d, ring);
      PolygonStep(old(d.halfEdges), hs1, d.halfEdges, polygon, r);
      r := r + 1;
    }
    assert PolygonRings(polygon)[..r] == PolygonRings(polygon);
  }

  /** One step of the polygon loop: the rings before `r`, and now ring `r` too, are paired. */
  lemma PolygonStep(hs0: seq<HalfEdge>, hs1: seq<HalfEdge>, hs2: seq<HalfEdge>, polygon: seq<seq<nat>>, r: nat)
    requires r < |polygon| && KeysKept(hs0, hs1) && KeysKept(hs1, hs2)
    requires RingsPresent(hs1, PolygonRings(polygon)[..r]) && MadeFromRings(hs1, |hs0|, PolygonRings(polygon)[..r])
    requires RingPresent(hs2, Open(Oriented(polygon[r], r))) && MadeFromRing(hs2, |hs1|, Open(Oriented(polygon[r], r)))
    ensures KeysKept(hs0, hs2)
    ensures RingsPresent(hs2, PolygonRings(polygon)[..r + 1]) && MadeFromRings(hs2, |hs0|, PolygonRings(polygon)[..r + 1])
  {
    var ring := Open(Oriented(polygon[r], r));
    OneRing(hs2, |hs1|, ring);
    AddRings(hs1, hs2, |hs0|, PolygonRings(polygon)[..r], [ring]);
    assert PolygonRings(polygon)[..r] + [ring] == PolygonRings(polygon)[..r + 1];
  }

  /**
   * Phase 2: every ring edge of every polygon, inner rings reversed, without the closing point.
   * Afterwards every ring edge is a half-edge, and every half-edge added is a ring edge or its twin.
   */
  method PairAllRings(d: Dcel, ids: seq<seq<seq<nat>>>)
    requires d.Valid() && Paired(d.halfEdges) && AllTwinned(d.halfEdges)
    requires IdsInRange(ids, |d.vertices|)
    modifies d`vertices, d`halfEdges
    ensures d.Valid() && Paired(d.halfEdges) && AllTwinned(d.halfEdges)
    ensures SameCoordinates(old(d.vertices), d.vertices)
    ensures KeysKept(old(d.halfEdges), d.halfEdges)
    ensures RingsPresent(d.halfEdges, Rings(ids))
    ensures MadeFromRings(d.halfEdges, |old(d.halfEdges)|, Rings(ids))
  {
    var p := 0;
    while p < |ids|
      invariant 0 <= p <= |ids|
      invariant d.Valid() && Paired(d.halfEdges) && AllTwinned(d.halfEdges)
      invariant SameCoordinates(old(d.vertices), d.vertices)
      invariant KeysKept(old(d.halfEdges), d.halfEdges)
      invariant RingsPresent(d.halfEdges, Rings(ids[..p]))
      invariant MadeFromRings(d.halfEdges, |old(d.halfEdges)|, Rings(ids[..p]))
    {
      ghost var hs1 := d.halfEdges;
      PolygonIdsInRange(ids, |d.vertices|, p);
      PairPolygon(d, ids[p]);
      PolygonsStep(old(d.halfEdges), hs1, d.halfEdges, ids, p);
      p := p + 1;
    }
    assert ids[..p] == ids;
  }

  lemma PolygonIdsInRange(ids: seq<seq<seq<nat>>>, n: nat, p: nat)
    requires IdsInRange(ids, n) && p < |ids|
    ensures forall r, k :: 0 <= r < |ids[p]| && 0 <= k < |ids[p][r]| ==> ids[p][r][k] < n
  {
  }

  /** One step of the outer pairing loop: the polygons before `p`, and now polygon `p` too, are paired. */
  lemma PolygonsStep(hs0: seq<HalfEdge>, hs1: seq<HalfEdge>, hs2: seq<HalfEdge>, ids: seq<seq<seq<nat>>>, p: nat)
    requires p < |ids| && KeysKept(hs0, hs1) && KeysKept(hs1, hs2)
    requires RingsPresent(hs1, Rings(ids[..p])) && MadeFromRings(hs1, |hs0|, Rings(ids[..p]))
    requires RingsPresent(hs2, PolygonRings(ids[p])) && MadeFromRings(hs2, |hs1|, PolygonRings(ids[p]))
    ensures KeysKept(hs0, hs2)
    ensures RingsPresent(hs2, Rings(ids[..p + 1])) && MadeFromRings(hs2, |hs0|, Rings(ids[..p + 1]))
  {
    AddRings(hs1, hs2, |hs0|, Rings(ids[..p]), PolygonRings(ids[p]));
    assert ids[..p + 1][..p] == ids[..p];
  }

  // ----- phase 3: links around every vertex -----

  /** The links of all vertices before `i`, and of the first `idx` edges of vertex `i`, are made. */
  ghost predicate LinkedUpTo(vs: seq<Vertex>, hs: seq<HalfEdge>, i: nat, idx: nat)
  {
    forall w, k :: 0 <= w < |vs| && 0 <= k < |vs[w].edges| && (w < i || (w == i && k < idx)) ==> LinkedAt(vs, hs, w, k)
  }

  /** One step of the linking loop: `e1.twin.next = e2; e2.prev = e1.twin`. */
  function LinkStepped(vs: seq<Vertex>, hs: seq<HalfEdge>, i: nat, idx: nat): (r: seq<HalfEdge>)
    requires ListedTails(vs, hs) && Paired(hs) && i < |vs| && idx < |vs[i].edges|
    ensures |r| == |hs|
  {
    var es := vs[i].edges;
    var e1 := es[idx];
    var e2 := es[Succ(idx, |es|)];
    if hs[e1].twin.None? then hs else Relinked(hs, hs[e1].twin.value, e2)
  }

  /** `t.next = e2; e2.prev = t`, and nothing else. */
  function Relinked(hs: seq<HalfEdge>, t: nat, e2: nat): (r: seq<HalfEdge>)
    requires t < |hs| && e2 < |hs|
    ensures |r| == |hs|
    ensures forall e {:trigger r[e]} :: 0 <= e < |hs| ==>
      r[e] == hs[e].(next := if e == t then Some(e2) else hs[e].next, prev := if e == e2 then Some(t) else hs[e].prev)
  {
    var hs1 := hs[t := hs[t].(next := Some(e2))];
    hs1[e2 := hs1[e2].(prev := Some(t))]
  }

  /** Only the `next` and `prev` links differ: keys, twins, faces and flags are kept. */
  ghost predicate SameButLinks(hs1: seq<HalfEdge>, hs2: seq<HalfEdge>)
  {
    |hs1| == |hs2| && forall e :: 0 <= e < |hs1| ==> hs2[e] == hs1[e].(next := hs2[e].next, prev := hs2[e].prev)
  }

  lemma SameButLinksTransitive(hs1: seq<HalfEdge>, hs2: seq<HalfEdge>, hs3: seq<HalfEdge>)
    requires SameButLinks(hs1, hs2) && SameButLinks(hs2, hs3)
    ensures SameButLinks(hs1, hs3)
  {
    forall e | 0 <= e < |hs1| ensures hs3[e] == hs1[e].(next := hs3[e].next, prev := hs3[e].prev) {
      assert hs2[e] == hs1[e].(next := hs2[e].next, prev := hs2[e].prev);
    }
  }

  /** A linking step changes links only. */
  lemma LinkStepLinksOnly(vs: seq<Vertex>, hs: seq<HalfEdge>, i: nat, idx: nat)
    requires ListedTails(vs, hs) && Paired(hs) && i < |vs| && idx < |vs[i].edges|
    ensures SameButLinks(hs, LinkStepped(vs, hs, i, idx))
  {
    var hs' := LinkStepped(vs, hs, i, idx);
    forall e | 0 <= e < |hs| ensures hs'[e] == hs[e].(next := hs'[e].next, prev := hs'[e].prev) {
    }
  }

  /** Different positions in the vertices' edge lists hold different edges. */
  lemma ListedDistinct(vs: seq<Vertex>, hs: seq<HalfEdge>, w: nat, k: nat, i: nat, j: nat)
    requires ListedTails(vs, hs) && ListsDistinct(vs) && w < |vs| && i < |vs| && k < |vs[w].edges| && j < |vs[i].edges|
    requires w != i || k != j
    ensures vs[w].edges[k] != vs[i].edges[j]
  {
    if w != i {
      assert hs[vs[w].edges[k]].tail == w && hs[vs[i].edges[j]].tail == i;
    } else if k < j {
      assert Distinct(vs[i].edges) && ElementsDiffer(vs[i].edges, k, j);
    } else {
      assert Distinct(vs[i].edges) && ElementsDiffer(vs[i].edges, j, k);
    }
  }

  /** Distinct positions have distinct cyclic successors. */
  lemma SuccessorDistinct(k: nat, j: nat, n: nat)
    requires k < n && j < n && k != j
    ensures Succ(k, n) != Succ(j, n)
  {
  }

  /** What a linking step changes: the `next` of the first edge's twin and the `prev` of the second edge. */
  lemma LinkStepChanges(vs: seq<Vertex>, hs: seq<HalfEdge>, i: nat, idx: nat)
    requires ListedTails(vs, hs) && Paired(hs) && AllTwinned(hs)
    requires i < |vs| && idx < |vs[i].edges|
    ensures var hs' := LinkStepped(vs, hs, i, idx);
      var es := vs[i].edges;
      var t := hs[es[idx]].twin.value;
      var e2 := es[Succ(idx, |es|)];
      && t < |hs| && e2 < |hs|
      && (forall e :: 0 <= e < |hs| ==> hs'[e].twin == hs[e].twin && hs'[e].tail == hs[e].tail && hs'[e].head == hs[e].head)
      && (forall e :: 0 <= e < |hs| && e != t ==> hs'[e].next == hs[e].next)
      && (forall e :: 0 <= e < |hs| && e != e2 ==> hs'[e].prev == hs[e].prev)
      && (forall e :: 0 <= e < |hs| ==> hs'[e].face == hs[e].face)
      && hs'[t].next == Some(e2) && hs'[e2].prev == Some(t)
  {
  }

  /** Relinking keeps every reference in range. */
  lemma RelinkedRefs(hs: seq<HalfEdge>, t: nat, e2: nat, nv: nat, nf: nat)
    requires forall e :: 0 <= e < |hs| ==> RefsOk(hs[e], nv, |hs|, nf)
    requires t < |hs| && e2 < |hs|
    ensures var hs' := Relinked(hs, t, e2);
      forall e :: 0 <= e < |hs'| ==> RefsOk(hs'[e], nv, |hs'|, nf)
  {
    var hs' := Relinked(hs, t, e2);
    forall e | 0 <= e < |hs'| ensures RefsOk(hs'[e], nv, |hs'|, nf) {
      assert RefsOk(hs[e], nv, |hs|, nf);
    }
  }

  /** Relinking keeps every twin and its key. */
  lemma RelinkedPaired(hs: seq<HalfEdge>, t: nat, e2: nat)
    requires Paired(hs) && AllTwinned(hs)
    requires t < |hs| && e2 < |hs|
    ensures var hs' := Relinked(hs, t, e2);
      SameEdgeKeys(hs, hs') && Paired(hs') && AllTwinned(hs')
  {
    var hs' := Relinked(hs, t, e2);
    forall e | 0 <= e < |hs'| && hs'[e].twin.Some?
      ensures hs'[e].twin.value < |hs'| && hs'[hs'[e].twin.value].tail == hs'[e].head && hs'[hs'[e].twin.value].head == hs'[e].tail
    {
      assert hs'[e].twin == hs[e].twin;
    }
  }

  /** Relinking two edges of the arena to each other keeps it well formed and every edge twinned. */
  lemma RelinkedShape(vs: seq<Vertex>, hs: seq<HalfEdge>, fs: seq<Face>, t: nat, e2: nat)
    requires Wf(vs, hs, fs) && Paired(hs) && AllTwinned(hs)
    requires t < |hs| && e2 < |hs|
    ensures var hs' := Relinked(hs, t, e2);
      Wf(vs, hs', fs) && Paired(hs') && AllTwinned(hs')
  {
    RelinkedRefs(hs, t, e2, |vs|, |fs|);
    RelinkedPaired(hs, t, e2);
    SameEdgeKeysWf(vs, hs, Relinked(hs, t, e2), fs);
  }

  /** A linking step keeps the arena well formed and every edge twinned. */
  lemma LinkStepShape(vs: seq<Vertex>, hs: seq<HalfEdge>, fs: seq<Face>, i: nat, idx: nat)
    requires Wf(vs, hs, fs) && Paired(hs) && AllTwinned(hs)
    requires i < |vs| && idx < |vs[i].edges|
    ensures var hs' := LinkStepped(vs, hs, i, idx);
      Wf(vs, hs', fs) && Paired(hs') && AllTwinned(hs')
  {
    var es := vs[i].edges;
    assert es[idx] < |hs|;
    var t := hs[es[idx]].twin.value;
    var e2 := es[Succ(idx, |es|)];
    assert t < |hs| && e2 < |hs|;
    assert LinkStepped(vs, hs, i, idx) == Relinked(hs, t, e2);
    RelinkedShape(vs, hs, fs, t, e2);
  }

  /** A linking step keeps the link made at any other position. */
  lemma LinkKept(vs: seq<Vertex>, hs: seq<HalfEdge>, i: nat, idx: nat, w: nat, k: nat)
    requires ListedTails(vs, hs) && ListsDistinct(vs) && EdgeKeysDistinct(hs) && Paired(hs) && AllTwinned(hs)
    requires i < |vs| && idx < |vs[i].edges|
    requires w < |vs| && k < |vs[w].edges| && (w != i || k != idx)
    requires LinkedAt(vs, hs, w, k)
    ensures LinkedAt(vs, LinkStepped(vs, hs, i, idx), w, k)
  {
    LinkStepChanges(vs, hs, i, idx);
    var n := |vs[i].edges|;
    var m := |vs[w].edges|;
    ListedDistinct(vs, hs, w, k, i, idx);
    TwinInjective(hs, vs[w].edges[k], vs[i].edges[idx]);
    if w == i {
      SuccessorDistinct(k, idx, n);
    }
    ListedDistinct(vs, hs, w, Succ(k, m), i, Succ(idx, n));
  }

  /** A linking step makes its own link. */
  lemma LinkOwn(vs: seq<Vertex>, hs: seq<HalfEdge>, i: nat, idx: nat)
    requires ListedTails(vs, hs) && Paired(hs) && AllTwinned(hs)
    requires i < |vs| && idx < |vs[i].edges|
    ensures LinkedAt(vs, LinkStepped(vs, hs, i, idx), i, idx)
  {
    LinkStepChanges(vs, hs, i, idx);
  }

  /** A linking step makes its own link and keeps every link made before it. */
  lemma LinkStep(vs: seq<Vertex>, hs: seq<HalfEdge>, i: nat, idx: nat)
    requires ListedTails(vs, hs) && ListsDistinct(vs) && EdgeKeysDistinct(hs) && Paired(hs) && AllTwinned(hs)
    requires i < |vs| && idx < |vs[i].edges|
    requires LinkedUpTo(vs, hs, i, idx)
    ensures LinkedUpTo(vs, LinkStepped(vs, hs, i, idx), i, idx + 1)
  {
    var hs' := LinkStepped(vs, hs, i, idx);
    forall w, k | 0 <= w < |vs| && 0 <= k < |vs[w].edges| && (w < i || (w == i && k < idx + 1))
      ensures LinkedAt(vs, hs', w, k)
    {
      if w == i && k == idx {
        LinkOwn(vs, hs, i, idx);
      } else {
        LinkKept(vs, hs, i, idx, w, k);
      }
    }
  }

  /** Distinct elements occur at most once. */
  lemma {:induction false} DistinctCount(s: seq<nat>, x: nat)
    requires Distinct(s)
    ensures multiset(s)[x] <= 1
  {
    if |s| > 0 {
      var n := |s| - 1;
      assert s == s[..n] + [s[n]];
      forall a, b | 0 <= a < b < n ensures ElementsDiffer(s[..n], a, b) {
        assert ElementsDiffer(s, a, b);
      }
      DistinctCount(s[..n], x);
      forall a | 0 <= a < n ensures s[..n][a] != s[n] {
        assert ElementsDiffer(s, a, n);
      }
    }
  }

  /** An element at two positions occurs at least twice. */
  lemma RepeatCount(s: seq<nat>, i: nat, j: nat)
    requires i < j < |s|
    ensures s[i] == s[j] ==> multiset(s)[s[i]] >= 2
  {
    assert s == s[..j] + s[j..];
    assert s[i] in s[..j] && s[j] in s[j..];
    assert multiset(s) == multiset(s[..j]) + multiset(s[j..]);
  }

  /** A reordering of a list without repetitions has none. */
  lemma ReorderedDistinct(a: seq<nat>, b: seq<nat>)
    requires Distinct(a) && multiset(a) == multiset(b)
    ensures Distinct(b)
  {
    forall i, j | 0 <= i < j < |b| ensures ElementsDiffer(b, i, j) {
      RepeatCount(b, i, j);
      DistinctCount(a, b[i]);
    }
  }

  /** Reordering one vertex's edge list keeps the arena well formed. */
  lemma ReorderListWf(vs: seq<Vertex>, hs: seq<HalfEdge>, fs: seq<Face>, i: nat, es: seq<nat>)
    requires Wf(vs, hs, fs) && i < |vs| && multiset(es) == multiset(vs[i].edges)
    ensures Wf(vs[i := vs[i].(edges := es)], hs, fs)
  {
    var vs' := vs[i := vs[i].(edges := es)];
    ReorderedDistinct(vs[i].edges, es);
    assert forall x :: x in es <==> x in vs[i].edges by {
      forall x ensures x in es <==> x in vs[i].edges {
        assert x in es <==> x in multiset(es);
        assert x in vs[i].edges <==> x in multiset(vs[i].edges);
      }
    }
    assert VertexKeysDistinct(vs') by {
      forall a, b | 0 <= a < b < |vs'| ensures VerticesDiffer(vs', a, b) {
        assert VerticesDiffer(vs, a, b);
      }
    }
    assert EdgeListsExact(vs', hs) by {
      forall v, k | 0 <= v < |vs'| && 0 <= k < |vs'[v].edges|
        ensures vs'[v].edges[k] < |hs| && hs[vs'[v].edges[k]].tail == v
      {
        if v == i {
          assert es[k] in vs[i].edges;
          var k' :| 0 <= k' < |vs[i].edges| && vs[i].edges[k'] == es[k];
        }
      }
      forall e | 0 <= e < |hs| && hs[e].tail < |vs'| ensures e in vs'[hs[e].tail].edges {
        assert e in vs[hs[e].tail].edges;
      }
    }
  }

  /** Reordering the edge list of vertex `i` keeps the links made for the vertices before it. */
  lemma ReorderKeepsLinks(vs: seq<Vertex>, hs: seq<HalfEdge>, i: nat, es: seq<nat>)
    requires i < |vs| && LinkedUpTo(vs, hs, i, 0)
    ensures LinkedUpTo(vs[i := vs[i].(edges := es)], hs, i, 0)
  {
    var vs' := vs[i := vs[i].(edges := es)];
    forall w, k | 0 <= w < |vs'| && 0 <= k < |vs'[w].edges| && w < i
      ensures LinkedAt(vs', hs, w, k)
    {
      assert LinkedAt(vs, hs, w, k);
    }
  }

  /** The links of one vertex, in the order `sortEdges` gives its edges. */
  method LinkVertex(d: Dcel, i: nat, sortEdges: (nat, seq<nat>) -> seq<nat>)
    requires d.Valid() && Paired(d.halfEdges) && AllTwinned(d.halfEdges)
    requires i < |d.vertices| && LinkedUpTo(d.vertices, d.halfEdges, i, 0)
    requires multiset(sortEdges(i, d.vertices[i].edges)) == multiset(d.vertices[i].edges)
    modifies d`vertices, d`halfEdges
    ensures d.Valid() && Paired(d.halfEdges) && AllTwinned(d.halfEdges)
    ensures d.vertices == old(d.vertices)[i := old(d.vertices[i]).(edges := sortEdges(i, old(d.vertices[i].edges)))]
    ensures SameButLinks(old(d.halfEdges), d.halfEdges)
    ensures LinkedUpTo(d.vertices, d.halfEdges, i + 1, 0)
  {
    var es := sortEdges(i, d.vertices[i].edges);
    ReorderListWf(d.vertices, d.halfEdges, d.faces, i, es);
    ReorderKeepsLinks(d.vertices, d.halfEdges, i, es);
    d.vertices := d.vertices[i := d.vertices[i].(edges := es)];
    LinkEdges(d, i);
  }

  /** The loop over the sorted edges of vertex `i`: `e1.twin.next = e2; e2.prev = e1.twin`. */
  method LinkEdges(d: Dcel, i: nat)
    requires d.Valid() && Paired(d.halfEdges) && AllTwinned(d.halfEdges)
    requires i < |d.vertices| && LinkedUpTo(d.vertices, d.halfEdges, i, 0)
    modifies d`halfEdges
    ensures d.Valid() && Paired(d.halfEdges) && AllTwinned(d.halfEdges)
    ensures SameButLinks(old(d.halfEdges), d.halfEdges)
    ensures LinkedUpTo(d.vertices, d.halfEdges, i + 1, 0)
  {
    var vs, hs, fs := d.vertices, d.halfEdges, d.faces;
    ghost var hs0 := hs;
    var idx := 0;
    while idx < |vs[i].edges|
      invariant 0 <= idx <= |vs[i].edges|
      invariant Wf(vs, hs, fs) && Paired(hs) && AllTwinned(hs)
      invariant SameButLinks(hs0, hs)
      invariant LinkedUpTo(vs, hs, i, idx)
    {
      LinkStep(vs, hs, i, idx);
      LinkStepShape(vs, hs, fs, i, idx);
      LinkStepLinksOnly(vs, hs, i, idx);
      SameButLinksTransitive(hs0, hs, LinkStepped(vs, hs, i, idx));
      hs := LinkStepped(vs, hs, i, idx);
      idx := idx + 1;
    }
    d.halfEdges := hs;
  }

  /** Phase 3: every vertex, in order, sorts its edges and links each one's twin to the next edge. */
  method LinkAll(d: Dcel, sortEdges: (nat, seq<nat>) -> seq<nat>)
    requires d.Valid() && Paired(d.halfEdges) && AllTwinned(d.halfEdges)
    requires forall v: nat, es: seq<nat> :: multiset(sortEdges(v, es)) == multiset(es)
    modifies d`vertices, d`halfEdges
    ensures d.Valid() && Paired(d.halfEdges) && AllTwinned(d.halfEdges) && Linked(d.vertices, d.halfEdges)
    ensures SameCoordinates(old(d.vertices), d.vertices)
    ensures |d.vertices| == |old(d.vertices)|
    ensures forall v :: 0 <= v < |d.vertices| ==>
      d.vertices[v] == old(d.vertices[v]).(edges := sortEdges(v, old(d.vertices[v].edges)))
    ensures SameButLinks(old(d.halfEdges), d.halfEdges)
  {
    var i := 0;
    while i < |d.vertices|
      invariant 0 <= i <= |d.vertices| && |d.vertices| == |old(d.vertices)|
      invariant d.Valid() && Paired(d.halfEdges) && AllTwinned(d.halfEdges)
      invariant SameButLinks(old(d.halfEdges), d.halfEdges)
      invariant SameCoordinates(old(d.vertices), d.vertices)
      invariant forall v :: 0 <= v < i ==> d.vertices[v] == old(d.vertices[v]).(edges := sortEdges(v, old(d.vertices[v].edges)))
      invariant forall v :: i <= v < |d.vertices| ==> d.vertices[v] == old(d.vertices[v])
      invariant LinkedUpTo(d.vertices, d.halfEdges, i, 0)
    {
      ghost var hs1 := d.halfEdges;
      LinkVertex(d, i, sortEdges);
      SameButLinksTransitive(old(d.halfEdges), hs1, d.halfEdges);
      i := i + 1;
    }
  }

  // ----- phase 4: faces of the rings -----

  /** The edges met walking `next` from `cur` until the walk returns to `start`, a link is missing or the fuel is spent. */
  function Walk(hs: seq<HalfEdge>, start: nat, cur: nat, fuel: nat): (r: seq<nat>)
    requires cur < |hs|
    ensures fuel > 0 ==> |r| > 0 && r[0] == cur
    ensures forall k :: 0 <= k < |r| ==> r[k] < |hs|
    ensures forall k :: 0 <= k < |r| - 1 ==> hs[r[k]].next == Some(r[k + 1])
    ensures |r| <= fuel
    decreases fuel
  {
    if fuel == 0 then []
    else
      match hs[cur].next
      case None => [cur]
      case Some(n) => if n == start || n >= |hs| then [cur] else [cur] + Walk(hs, start, n, fuel - 1)
  }

  /** HalfEdge.getCycle: the edges of the cycle through `e`, starting with `e`. */
  function Cycle(hs: seq<HalfEdge>, e: nat): (r: seq<nat>)
    requires e < |hs|
    ensures |r| > 0 && r[0] == e
    ensures forall k :: 0 <= k < |r| ==> r[k] < |hs|
    ensures forall k :: 0 <= k < |r| - 1 ==> hs[r[k]].next == Some(r[k + 1])
  {
    Walk(hs, e, e, |hs|)
  }

  /** `cycle.forEach((e) => (e.face = f))`. */
  method PaintCycle(d: Dcel, cycle: seq<nat>, f: nat)
    requires d.Valid() && f < |d.faces|
    requires forall k :: 0 <= k < |cycle| ==> cycle[k] < |d.halfEdges|
    modifies d`halfEdges
    ensures d.Valid()
    ensures SameButFaces(old(d.halfEdges), d.halfEdges)
    ensures forall e :: 0 <= e < |d.halfEdges| ==> d.halfEdges[e].face == if e in cycle then Some(f) else old(d.halfEdges[e].face)
  {
    var i := 0;
    while i < |cycle|
      invariant 0 <= i <= |cycle|
      invariant SameButFaces(old(d.halfEdges), d.halfEdges)
      invariant forall e :: 0 <= e < |d.halfEdges| ==>
        d.halfEdges[e].face == if e in cycle[..i] then Some(f) else old(d.halfEdges[e].face)
    {
      var e := cycle[i];
      assert cycle[..i + 1] == cycle[..i] + [e];
      d.halfEdges := d.halfEdges[e := d.halfEdges[e].(face := Some(f))];
      i := i + 1;
    }
    assert cycle[..i] == cycle;
    ghost var hs0 := old(d.halfEdges);
    forall e | 0 <= e < |d.halfEdges| ensures RefsOk(d.halfEdges[e], |d.vertices|, |d.halfEdges|, |d.faces|) {
      assert RefsOk(hs0[e], |d.vertices|, |hs0|, |d.faces|);
    }
    SameEdgeKeysWf(d.vertices, hs0, d.halfEdges, d.faces);
  }

  /** The half-edge goes from the first to the second point and has a twin. */
  predicate StartsRing(vs: seq<Vertex>, hs: seq<HalfEdge>, e: nat, p0: Point, p1: Point)
    requires e < |hs|
  {
    && hs[e].tail < |vs| && vs[hs[e].tail].x == p0.x && vs[hs[e].tail].y == p0.y
    && hs[e].twin.Some? && hs[e].twin.value < |hs|
    && hs[hs[e].twin.value].tail < |vs|
    && vs[hs[hs[e].twin.value].tail].x == p1.x && vs[hs[hs[e].twin.value].tail].y == p1.y
  }

  /** The first half-edge from `p0` whose twin starts at `p1`. */
  function FindRingEdge(vs: seq<Vertex>, hs: seq<HalfEdge>, p0: Point, p1: Point, from: nat): (r: Option<nat>)
    requires from <= |hs|
    ensures r.Some? ==> from <= r.value < |hs| && StartsRing(vs, hs, r.value, p0, p1)
    ensures r.Some? ==> forall e :: from <= e < r.value ==> !StartsRing(vs, hs, e, p0, p1)
    ensures r.None? ==> forall e :: from <= e < |hs| ==> !StartsRing(vs, hs, e, p0, p1)
    decreases |hs| - from
  {
    if from == |hs| then None
    else if StartsRing(vs, hs, from, p0, p1) then Some(from)
    else FindRingEdge(vs, hs, p0, p1, from + 1)
  }

  /** `subdivision.faces.find((f) => f.edge === edge)`. */
  function FaceOfEdge(fs: seq<Face>, e: nat, from: nat): (r: Option<nat>)
    requires from <= |fs|
    ensures r.Some? ==> from <= r.value < |fs| && fs[r.value].edge == Some(e)
    ensures r.Some? ==> forall f :: from <= f < r.value ==> fs[f].edge != Some(e)
    ensures r.None? ==> forall f :: from <= f < |fs| ==> fs[f].edge != Some(e)
    decreases |fs| - from
  {
    if from == |fs| then None
    else if fs[from].edge == Some(e) then Some(from)
    else FaceOfEdge(fs, e, from + 1)
  }

  /** The half-edge's tail is at the point. */
  predicate StartsAt(vs: seq<Vertex>, hs: seq<HalfEdge>, e: nat, p: Point)
    requires e < |hs|
  {
    hs[e].tail < |vs| && vs[hs[e].tail].x == p.x && vs[hs[e].tail].y == p.y
  }

  /** The ring's lookup throws: it reads `firstPoint[0]` or `secondPoint[0]` of a point that is missing. */
  ghost predicate RingLookupThrows(vs: seq<Vertex>, hs: seq<HalfEdge>, ring: seq<Point>)
  {
    || (|ring| == 0 && |hs| > 0)
    || (|ring| == 1 && exists e :: 0 <= e < |hs| && StartsAt(vs, hs, e, ring[0]))
  }

  /** An inner ring that opens a new face while the feature has no outer ring face: `outerRingFace.innerEdges` throws. */
  ghost predicate OrphanInnerRing(vs: seq<Vertex>, hs: seq<HalfEdge>, fs: seq<Face>, ring: seq<Point>, ringIdx: nat, outer: Option<nat>)
  {
    && |ring| >= 2 && ringIdx > 0 && outer.None?
    && var e := FindRingEdge(vs, hs, ring[0], ring[1], 0);
    && e.Some? && FaceOfEdge(fs, e.value, 0).None?
  }

  ghost predicate AllFacesBounded(fs: seq<Face>)
  {
    forall f :: 0 <= f < |fs| ==> fs[f].edge.Some?
  }

  ghost predicate LinkedDcel(vs: seq<Vertex>, hs: seq<HalfEdge>)
  {
    EdgeKeysDistinct(hs) && Paired(hs) && AllTwinned(hs) && Linked(vs, hs)
  }

  /** Walking `next` meets the same edges in two arenas that differ only in faces. */
  lemma {:induction false} WalkKept(hs1: seq<HalfEdge>, hs2: seq<HalfEdge>, start: nat, cur: nat, fuel: nat)
    requires SameButFaces(hs1, hs2) && cur < |hs1|
    ensures Walk(hs1, start, cur, fuel) == Walk(hs2, start, cur, fuel)
    decreases fuel
  {
    if fuel > 0 {
      assert hs2[cur] == hs1[cur].(face := hs2[cur].face);
      match hs1[cur].next
      case None =>
      case Some(n) =>
        if n != start && n < |hs1| {
          WalkKept(hs1, hs2, start, n, fuel - 1);
        }
    }
  }

  /** Painting faces does not change any cycle. */
  lemma CycleKept(hs1: seq<HalfEdge>, hs2: seq<HalfEdge>, e: nat)
    requires SameButFaces(hs1, hs2) && e < |hs1|
    ensures Cycle(hs1, e) == Cycle(hs2, e)
  {
    WalkKept(hs1, hs2, e, e, |hs1|);
  }

  /** The edges of the cycle of `e` have face `f`, every other edge keeps its face. */
  ghost predicate CyclePainted(hs0: seq<HalfEdge>, hs: seq<HalfEdge>, e: nat, f: nat)
  {
    && e < |hs0| && |hs| == |hs0|
    && forall x :: 0 <= x < |hs| ==> hs[x].face == if x in Cycle(hs0, e) then Some(f) else hs0[x].face
  }

  /** A hole: the cycle of `e` has face `f`, then the cycle of its twin has face `o`; every other edge keeps its face. */
  ghost predicate HolePainted(hs0: seq<HalfEdge>, hs: seq<HalfEdge>, e: nat, f: nat, o: nat)
  {
    && e < |hs0| && |hs| == |hs0| && hs0[e].twin.Some? && hs0[e].twin.value < |hs0|
    && forall x :: 0 <= x < |hs| ==>
         hs[x].face == if x in Cycle(hs0, hs0[e].twin.value) then Some(o)
                       else if x in Cycle(hs0, e) then Some(f) else hs0[x].face
  }

  /**
   * What a ring whose first edge is `e` does, from half-edges `hs0` and faces `fs0` to `hs` and `fs`:
   * the face whose edge is `e` gets the feature id; otherwise an outer ring opens a face for the
   * cycle of `e`, and an inner ring opens a hole face and lists `e` as an inner edge of the outer
   * ring's face, which gets the twin's cycle. An inner ring with no outer ring face fails and
   * changes nothing.
   */
  ghost predicate PaintedAt(hs0: seq<HalfEdge>, fs0: seq<Face>, hs: seq<HalfEdge>, fs: seq<Face>,
                            e: nat, ringIdx: nat, fid: nat, outer: Option<nat>, ok: bool, outer': Option<nat>)
  {
    match FaceOfEdge(fs0, e, 0)
    case Some(g) =>
      ok && outer' == outer && hs == hs0 && fs == fs0[g := fs0[g].(fid := fs0[g].fid + [fid])]
    case None =>
      if ringIdx == 0 then
        && ok && outer' == Some(|fs0|)
        && fs == fs0 + [Face(Some(e), [fid], [], None)]
        && CyclePainted(hs0, hs, e, |fs0|)
      else
        match outer
        case None => !ok && outer' == outer && hs == hs0 && fs == fs0
        case Some(o) =>
          && ok && outer' == outer && o < |fs0|
          && fs == (fs0 + [Face(Some(e), [fid], [], outer)])[o := fs0[o].(innerEdges := fs0[o].innerEdges + [e])]
          && HolePainted(hs0, hs, e, |fs0|, o)
  }

  /**
   * What a ring does: a ring of fewer than two points changes nothing (and fails where the source
   * throws), a ring whose first edge is not found is skipped, and otherwise PaintedAt.
   */
  ghost predicate RingPainted(vs: seq<Vertex>, hs0: seq<HalfEdge>, fs0: seq<Face>, hs: seq<HalfEdge>, fs: seq<Face>,
                              ring: seq<Point>, ringIdx: nat, fid: nat, outer: Option<nat>, ok: bool, outer': Option<nat>)
  {
    if |ring| < 2 then
      ok == !RingLookupThrows(vs, hs0, ring) && outer' == outer && hs == hs0 && fs == fs0
    else
      match FindRingEdge(vs, hs0, ring[0], ring[1], 0)
      case None => ok && outer' == outer && hs == hs0 && fs == fs0
      case Some(e) => PaintedAt(hs0, fs0, hs, fs, e, ringIdx, fid, outer, ok, outer')
  }

  /** Changing one face to one that is in range keeps the arena well formed. */
  lemma FaceUpdateWf(vs: seq<Vertex>, hs: seq<HalfEdge>, fs: seq<Face>, f: nat, face: Face)
    requires Wf(vs, hs, fs) && f < |fs| && FaceOk(face, |hs|, |fs|)
    ensures Wf(vs, hs, fs[f := face])
  {
    var fs' := fs[f := face];
    forall e | 0 <= e < |hs| ensures RefsOk(hs[e], |vs|, |hs|, |fs'|) {
      assert RefsOk(hs[e], |vs|, |hs|, |fs|);
    }
    forall g | 0 <= g < |fs'| ensures FaceOk(fs'[g], |hs|, |fs'|) {
      if g != f {
        assert FaceOk(fs[g], |hs|, |fs|);
      }
    }
  }

  /** Painting a cycle keeps the links. */
  method PaintCycleLinked(d: Dcel, e: nat, f: nat)
    requires d.Valid() && LinkedDcel(d.vertices, d.halfEdges) && f < |d.faces| && e < |d.halfEdges|
    modifies d`halfEdges
    ensures d.Valid() && LinkedDcel(d.vertices, d.halfEdges)
    ensures SameButFaces(old(d.halfEdges), d.halfEdges)
    ensures forall x :: 0 <= x < |d.halfEdges| ==>
      d.halfEdges[x].face == if x in Cycle(old(d.halfEdges), e) then Some(f) else old(d.halfEdges[x].face)
  {
    PaintCycle(d, Cycle(d.halfEdges, e), f);
    SameButFacesKeepsLinks(d.vertices, old(d.halfEdges), d.halfEdges);
  }

  /** A bounded face for a ring: `makeFace()`, the feature id, the outer ring, the cycle of `e` painted and `e` as its edge. */
  method OpenFace(d: Dcel, e: nat, fid: nat, outerRing: Option<nat>) returns (f: nat)
    requires d.Valid() && LinkedDcel(d.vertices, d.halfEdges) && AllFacesBounded(d.faces)
    requires e < |d.halfEdges| && (outerRing.Some? ==> outerRing.value < |d.faces|)
    modifies d`halfEdges, d`faces
    ensures d.Valid() && LinkedDcel(d.vertices, d.halfEdges) && AllFacesBounded(d.faces)
    ensures f == |old(d.faces)| && d.faces == old(d.faces) + [Face(Some(e), [fid], [], outerRing)]
    ensures SameButFaces(old(d.halfEdges), d.halfEdges)
    ensures forall x :: 0 <= x < |d.halfEdges| ==>
      d.halfEdges[x].face == if x in Cycle(old(d.halfEdges), e) then Some(f) else old(d.halfEdges[x].face)
  {
    f := d.MakeFace();
    PaintCycleLinked(d, e, f);
    FaceUpdateWf(d.vertices, d.halfEdges, d.faces, f, Face(Some(e), [fid], [], outerRing));
    d.faces := d.faces[f := Face(Some(e), [fid], [], outerRing)];
  }

  /**
   * One ring of a polygon feature: the face it gets. When its first edge already represents a face
   * that face gets the feature id too; otherwise an outer ring opens a new face for its cycle, and
   * an inner ring opens a hole face and gives the other side of the hole to the outer ring's face.
   */
  method PaintRing(d: Dcel, ring: seq<Point>, ringIdx: nat, fid: nat, outer: Option<nat>) returns (ok: bool, outer': Option<nat>)
    requires d.Valid() && LinkedDcel(d.vertices, d.halfEdges) && AllFacesBounded(d.faces)
    requires outer.Some? ==> outer.value < |d.faces|
    modifies d`halfEdges, d`faces
    ensures ok <==> (!RingLookupThrows(d.vertices, old(d.halfEdges), ring)
                     && !OrphanInnerRing(d.vertices, old(d.halfEdges), old(d.faces), ring, ringIdx, outer))
    ensures ok ==> d.Valid() && LinkedDcel(d.vertices, d.halfEdges) && AllFacesBounded(d.faces)
    ensures ok ==> |old(d.faces)| <= |d.faces| && (outer'.Some? ==> outer'.value < |d.faces|)
    ensures ok && ringIdx > 0 ==> outer' == outer
    ensures SameButFaces(old(d.halfEdges), d.halfEdges)
    ensures RingPainted(d.vertices, old(d.halfEdges), old(d.faces), d.halfEdges, d.faces, ring, ringIdx, fid, outer, ok, outer')
  {
    outer' := outer;
    if |ring| == 0 {
      ok := |d.halfEdges| == 0;
    } else if |ring| == 1 {
      ok := forall e :: 0 <= e < |d.halfEdges| ==> !StartsAt(d.vertices, d.halfEdges, e, ring[0]);
    } else {
      ok, outer' := PaintFoundRing(d, ring, ringIdx, fid, outer);
    }
  }

  /** PaintRing for a ring of at least two points: its first edge is looked up by the first two. */
  method PaintFoundRing(d: Dcel, ring: seq<Point>, ringIdx: nat, fid: nat, outer: Option<nat>) returns (ok: bool, outer': Option<nat>)
    requires d.Valid() && LinkedDcel(d.vertices, d.halfEdges) && AllFacesBounded(d.faces)
    requires |ring| >= 2 && (outer.Some? ==> outer.value < |d.faces|)
    modifies d`halfEdges, d`faces
    ensures ok <==> !OrphanInnerRing(d.vertices, old(d.halfEdges), old(d.faces), ring, ringIdx, outer)
    ensures ok ==> d.Valid() && LinkedDcel(d.vertices, d.halfEdges) && AllFacesBounded(d.faces)
    ensures ok ==> |old(d.faces)| <= |d.faces| && (outer'.Some? ==> outer'.value < |d.faces|)
    ensures ok && ringIdx > 0 ==> outer' == outer
    ensures SameButFaces(old(d.halfEdges), d.halfEdges)
    ensures RingPainted(d.vertices, old(d.halfEdges), old(d.faces), d.halfEdges, d.faces, ring, ringIdx, fid, outer, ok, outer')
  {
    var edge := FindRingEdge(d.vertices, d.halfEdges, ring[0], ring[1], 0);
    if edge.Some? {
      ok, outer' := PaintRingAt(d, edge.value, ringIdx, fid, outer);
    } else {
      ok, outer' := true, outer;
    }
  }

  /** PaintRing once its first edge `e` is found: the existing face of `e`, or a new face for its cycle. */
  method PaintRingAt(d: Dcel, e: nat, ringIdx: nat, fid: nat, outer: Option<nat>) returns (ok: bool, outer': Option<nat>)
    requires d.Valid() && LinkedDcel(d.vertices, d.halfEdges) && AllFacesBounded(d.faces)
    requires e < |d.halfEdges| && (outer.Some? ==> outer.value < |d.faces|)
    modifies d`halfEdges, d`faces
    ensures ok <==> !(ringIdx > 0 && outer.None? && FaceOfEdge(old(d.faces), e, 0).None?)
    ensures ok ==> d.Valid() && LinkedDcel(d.vertices, d.halfEdges) && AllFacesBounded(d.faces)
    ensures ok ==> |old(d.faces)| <= |d.faces| && (outer'.Some? ==> outer'.value < |d.faces|)
    ensures ok && ringIdx > 0 ==> outer' == outer
    ensures SameButFaces(old(d.halfEdges), d.halfEdges)
    ensures PaintedAt(old(d.halfEdges), old(d.faces), d.halfEdges, d.faces, e, ringIdx, fid, outer, ok, outer')
  {
    var existingFace := FaceOfEdge(d.faces, e, 0);
    if existingFace.Some? {
      ghost var fs0 := d.faces;
      AddFeatureId(d, existingFace.value, fid);
      assert d.faces == fs0[existingFace.value := fs0[existingFace.value].(fid := fs0[existingFace.value].fid + [fid])];
      return true, outer;
    }
    ok, outer' := PaintNewFace(d, e, ringIdx, fid, outer);
  }

  /** The part of PaintRingAt for an edge no face starts at: an outer ring opens a face, an inner ring a hole. */
  method PaintNewFace(d: Dcel, e: nat, ringIdx: nat, fid: nat, outer: Option<nat>) returns (ok: bool, outer': Option<nat>)
    requires d.Valid() && LinkedDcel(d.vertices, d.halfEdges) && AllFacesBounded(d.faces)
    requires e < |d.halfEdges| && (outer.Some? ==> outer.value < |d.faces|)
    requires FaceOfEdge(d.faces, e, 0).None?
    modifies d`halfEdges, d`faces
    ensures ok <==> !(ringIdx > 0 && outer.None?)
    ensures ok ==> d.Valid() && LinkedDcel(d.vertices, d.halfEdges) && AllFacesBounded(d.faces)
    ensures ok ==> |old(d.faces)| <= |d.faces| && (outer'.Some? ==> outer'.value < |d.faces|)
    ensures ok && ringIdx > 0 ==> outer' == outer
    ensures SameButFaces(old(d.halfEdges), d.halfEdges)
    ensures PaintedAt(old(d.halfEdges), old(d.faces), d.halfEdges, d.faces, e, ringIdx, fid, outer, ok, outer')
  {
    if ringIdx == 0 {
      ok, outer' := PaintOuterFace(d, e, fid, outer);
    } else if outer.None? {
      return false, outer;
    } else {
      PaintHoleFace(d, e, ringIdx, fid, outer.value);
      return true, outer;
    }
  }

  /** An outer ring whose first edge has no face opens one, which becomes the outer ring face. */
  method PaintOuterFace(d: Dcel, e: nat, fid: nat, outer: Option<nat>) returns (ok: bool, outer': Option<nat>)
    requires d.Valid() && LinkedDcel(d.vertices, d.halfEdges) && AllFacesBounded(d.faces)
    requires e < |d.halfEdges| && FaceOfEdge(d.faces, e, 0).None?
    modifies d`halfEdges, d`faces
    ensures ok && outer' == Some(|old(d.faces)|) && outer'.value < |d.faces|
    ensures d.Valid() && LinkedDcel(d.vertices, d.halfEdges) && AllFacesBounded(d.faces)
    ensures SameButFaces(old(d.halfEdges), d.halfEdges)
    ensures PaintedAt(old(d.halfEdges), old(d.faces), d.halfEdges, d.faces, e, 0, fid, outer, ok, outer')
  {
    var f := OpenFace(d, e, fid, None);
    return true, Some(f);
  }

  /** An inner ring whose first edge has no face opens a hole in the outer ring face `o`. */
  method PaintHoleFace(d: Dcel, e: nat, ringIdx: nat, fid: nat, o: nat)
    requires d.Valid() && LinkedDcel(d.vertices, d.halfEdges) && AllFacesBounded(d.faces)
    requires e < |d.halfEdges| && o < |d.faces| && ringIdx > 0 && FaceOfEdge(d.faces, e, 0).None?
    modifies d`halfEdges, d`faces
    ensures d.Valid() && LinkedDcel(d.vertices, d.halfEdges) && AllFacesBounded(d.faces)
    ensures |old(d.faces)| <= |d.faces|
    ensures SameButFaces(old(d.halfEdges), d.halfEdges)
    ensures PaintedAt(old(d.halfEdges), old(d.faces), d.halfEdges, d.faces, e, ringIdx, fid, Some(o), true, Some(o))
  {
    OpenHole(d, e, fid, o);
  }

  /** An inner ring with a new face: the hole's face, and the other side of the hole for the outer ring's face `o`. */
  method OpenHole(d: Dcel, e: nat, fid: nat, o: nat)
    requires d.Valid() && LinkedDcel(d.vertices, d.halfEdges) && AllFacesBounded(d.faces)
    requires e < |d.halfEdges| && o < |d.faces|
    modifies d`halfEdges, d`faces
    ensures d.Valid() && LinkedDcel(d.vertices, d.halfEdges) && AllFacesBounded(d.faces)
    ensures d.faces == (old(d.faces) + [Face(Some(e), [fid], [], Some(o))])[o := old(d.faces[o]).(innerEdges := old(d.faces[o].innerEdges) + [e])]
    ensures SameButFaces(old(d.halfEdges), d.halfEdges)
    ensures HolePainted(old(d.halfEdges), d.halfEdges, e, |old(d.faces)|, o)
  {
    var f := OpenFace(d, e, fid, Some(o));
    ghost var hs1 := d.halfEdges;
    HoleInOuterFace(d, e, o);
    SameButFacesTransitive(old(d.halfEdges), hs1, d.halfEdges);
    assert hs1[e] == old(d.halfEdges[e]).(face := hs1[e].face);
    CycleKept(old(d.halfEdges), hs1, hs1[e].twin.value);
  }

  /** `existingFace.FID.push(fid)`. */
  method AddFeatureId(d: Dcel, g: nat, fid: nat)
    requires d.Valid() && AllFacesBounded(d.faces) && g < |d.faces|
    modifies d`faces
    ensures d.Valid() && AllFacesBounded(d.faces)
    ensures d.faces == old(d.faces)[g := old(d.faces[g]).(fid := old(d.faces[g].fid) + [fid])]
  {
    FaceUpdateWf(d.vertices, d.halfEdges, d.faces, g, d.faces[g].(fid := d.faces[g].fid + [fid]));
    d.faces := d.faces[g := d.faces[g].(fid := d.faces[g].fid + [fid])];
  }

  /** The other side of a hole: the outer ring's face lists `e` as an inner edge and gets the cycle of its twin. */
  method HoleInOuterFace(d: Dcel, e: nat, o: nat)
    requires d.Valid() && LinkedDcel(d.vertices, d.halfEdges) && AllFacesBounded(d.faces)
    requires e < |d.halfEdges| && o < |d.faces|
    modifies d`halfEdges, d`faces
    ensures d.Valid() && LinkedDcel(d.vertices, d.halfEdges) && AllFacesBounded(d.faces)
    ensures d.faces == old(d.faces)[o := old(d.faces[o]).(innerEdges := old(d.faces[o].innerEdges) + [e])]
    ensures SameButFaces(old(d.halfEdges), d.halfEdges)
    ensures old(d.halfEdges[e].twin).Some? && old(d.halfEdges[e].twin.value) < |old(d.halfEdges)|
    ensures forall x :: 0 <= x < |d.halfEdges| ==>
      d.halfEdges[x].face == if x in Cycle(old(d.halfEdges), old(d.halfEdges[e].twin.value)) then Some(o) else old(d.halfEdges[x].face)
  {
    AddInnerEdge(d, o, e);
    assert RefsOk(d.halfEdges[e], |d.vertices|, |d.halfEdges|, |d.faces|);
    PaintCycleLinked(d, d.halfEdges[e].twin.value, o);
  }

  /** `outerRingFace.innerEdges.push(edge)`. */
  method AddInnerEdge(d: Dcel, o: nat, e: nat)
    requires d.Valid() && AllFacesBounded(d.faces) && o < |d.faces| && e < |d.halfEdges|
    modifies d`faces
    ensures d.Valid() && AllFacesBounded(d.faces)
    ensures d.faces == old(d.faces)[o := old(d.faces[o]).(innerEdges := old(d.faces[o].innerEdges) + [e])]
  {
    FaceUpdateWf(d.vertices, d.halfEdges, d.faces, o, d.faces[o].(innerEdges := d.faces[o].innerEdges + [e]));
    d.faces := d.faces[o := d.faces[o].(innerEdges := d.faces[o].innerEdges + [e])];
  }

  // ----- when the face loop cannot throw -----

  /** Ring `r` of polygon `p` of polygon feature `g`. */
  predicate FeatureRing(features: seq<Feature>, g: int, p: int, r: int)
  {
    0 <= g < |features| && features[g].Polygons? && 0 <= p < |features[g].polygons| && 0 <= r < |features[g].polygons[p]|
  }

  /** `const [firstPoint, secondPoint] = ring`, once an inner ring is reversed. */
  function FirstEdge(ring: seq<Point>, ringIdx: nat): (r: (Point, Point))
    requires |ring| >= 2
    ensures ringIdx == 0 ==> r == (ring[0], ring[1])
    ensures ringIdx > 0 ==> r == (ring[|ring| - 1], ring[|ring| - 2])
  {
    var o := Oriented(ring, ringIdx);
    (o[0], o[1])
  }

  /**
   * Feature `fid` opens its outer ring's face with its very first ring: that ring has a first
   * edge, and no ring of an earlier feature starts with the same two points, so no face has that
   * edge yet.
   */
  ghost predicate OpensOuterFace(features: seq<Feature>, fid: nat)
    requires fid < |features| && features[fid].Polygons?
  {
    var ps := features[fid].polygons;
    && |ps| > 0 && |ps[0]| > 0 && |ps[0][0]| >= 3
    && forall g, p, r :: FeatureRing(features, g, p, r) && g < fid && |features[g].polygons[p][r]| >= 2 ==>
         FirstEdge(features[g].polygons[p][r], r) != FirstEdge(ps[0][0], 0)
  }

  /** Some polygon of the feature has an inner ring. */
  predicate HasInnerRing(polygons: seq<seq<seq<Point>>>)
  {
    exists p :: 0 <= p < |polygons| && |polygons[p]| > 1
  }

  /**
   * No ring of the feature makes the face loop throw: every ring has two points or more, and a
   * feature with an inner ring has its outer ring face before the inner ring needs it.
   */
  ghost predicate FeaturePaintable(features: seq<Feature>, fid: nat)
    requires fid < |features| && features[fid].Polygons?
  {
    var ps := features[fid].polygons;
    && (forall p, r :: 0 <= p < |ps| && 0 <= r < |ps[p]| ==> |ps[p][r]| >= 2)
    && (HasInnerRing(ps) ==> OpensOuterFace(features, fid))
  }

  ghost predicate Paintable(features: seq<Feature>)
  {
    forall fid :: 0 <= fid < |features| && features[fid].Polygons? ==> FeaturePaintable(features, fid)
  }

  /** A square with one square hole, the shape of the source's square-with-hole test, is paintable. */
  lemma SquareWithHolePaintable()
    ensures Paintable([Polygons([[
      [Point(0.0, 0.0), Point(200.0, 0.0), Point(200.0, 200.0), Point(0.0, 200.0), Point(0.0, 0.0)],
      [Point(50.0, 50.0), Point(50.0, 150.0), Point(150.0, 150.0), Point(150.0, 50.0), Point(50.0, 50.0)]]])])
  {
    var features := [Polygons([[
      [Point(0.0, 0.0), Point(200.0, 0.0), Point(200.0, 200.0), Point(0.0, 200.0), Point(0.0, 0.0)],
      [Point(50.0, 50.0), Point(50.0, 150.0), Point(150.0, 150.0), Point(150.0, 50.0), Point(50.0, 50.0)]]])];
    assert OpensOuterFace(features, 0);
  }

  /** Half-edge `e` starts the first edge of a ring of one of the first `upto` features. */
  ghost predicate StartsEarlierRing(vs: seq<Vertex>, hs: seq<HalfEdge>, e: nat, features: seq<Feature>, upto: nat)
    requires e < |hs|
  {
    exists g, p, r :: FeatureRing(features, g, p, r) && g < upto && |features[g].polygons[p][r]| >= 2
      && StartsRing(vs, hs, e, FirstEdge(features[g].polygons[p][r], r).0, FirstEdge(features[g].polygons[p][r], r).1)
  }

  /** Every face's edge is the first edge of a ring of one of the first `upto` features. */
  ghost predicate FacesFromRings(vs: seq<Vertex>, hs: seq<HalfEdge>, fs: seq<Face>, features: seq<Feature>, upto: nat)
  {
    forall f :: 0 <= f < |fs| ==>
      fs[f].edge.Some? && fs[f].edge.value < |hs| && StartsEarlierRing(vs, hs, fs[f].edge.value, features, upto)
  }

  /** Painting keeps which points a half-edge and its twin start at. */
  lemma StartsRingKept(vs: seq<Vertex>, hs1: seq<HalfEdge>, hs2: seq<HalfEdge>, e: nat, p0: Point, p1: Point)
    requires SameButFaces(hs1, hs2) && e < |hs1| && StartsRing(vs, hs1, e, p0, p1)
    ensures StartsRing(vs, hs2, e, p0, p1)
  {
    assert hs2[e] == hs1[e].(face := hs2[e].face);
    var t := hs1[e].twin.value;
    assert hs2[t] == hs1[t].(face := hs2[t].face);
  }

  /** FacesFromRings survives a change of faces only, and holds for more features. */
  lemma FacesFromRingsKept(vs: seq<Vertex>, hs1: seq<HalfEdge>, hs2: seq<HalfEdge>, fs: seq<Face>, features: seq<Feature>, upto: nat, upto': nat)
    requires SameButFaces(hs1, hs2) && upto <= upto' && FacesFromRings(vs, hs1, fs, features, upto)
    ensures FacesFromRings(vs, hs2, fs, features, upto')
  {
    forall f | 0 <= f < |fs| ensures StartsEarlierRing(vs, hs2, fs[f].edge.value, features, upto') {
      var e := fs[f].edge.value;
      assert StartsEarlierRing(vs, hs1, e, features, upto);
      var g, p, r :| FeatureRing(features, g, p, r) && g < upto && |features[g].polygons[p][r]| >= 2
        && StartsRing(vs, hs1, e, FirstEdge(features[g].polygons[p][r], r).0, FirstEdge(features[g].polygons[p][r], r).1);
      StartsRingKept(vs, hs1, hs2, e, FirstEdge(features[g].polygons[p][r], r).0, FirstEdge(features[g].polygons[p][r], r).1);
    }
  }

  /** Every polygon of a polygon feature is one of AllPolygons. */
  lemma {:induction false} PolygonOfFeature(features: seq<Feature>, fid: nat, p: nat)
    requires fid < |features| && features[fid].Polygons? && p < |features[fid].polygons|
    ensures features[fid].polygons[p] in AllPolygons(features)
    decreases |features|
  {
    var n := |features|;
    if fid < n - 1 {
      assert features[..n - 1][fid] == features[fid];
      PolygonOfFeature(features[..n - 1], fid, p);
    }
  }

  /** Every ring of every polygon, oriented and opened, is one of Rings. */
  lemma {:induction false} RingOfPolygons<T>(polygons: seq<seq<seq<T>>>, p: nat, r: nat)
    requires p < |polygons| && r < |polygons[p]|
    ensures Open(Oriented(polygons[p][r], r)) in Rings(polygons)
    decreases |polygons|
  {
    var n := |polygons|;
    if p < n - 1 {
      assert polygons[..n - 1][p] == polygons[p];
      RingOfPolygons(polygons[..n - 1], p, r);
    } else {
      assert PolygonRings(polygons[n - 1])[r] == Open(Oriented(polygons[p][r], r));
    }
  }

  /** Once the rings are built, the face loop finds the first edge of an outer ring of three points or more. */
  lemma FirstEdgeFound(vs: seq<Vertex>, hs0: seq<HalfEdge>, hs: seq<HalfEdge>, features: seq<Feature>, fid: nat)
    requires RingsBuilt(vs, hs0, Rings(AllPolygons(features))) && SameButFaces(hs0, hs)
    requires FeatureRing(features, fid, 0, 0) && |features[fid].polygons[0][0]| >= 3
    ensures var ring := features[fid].polygons[0][0]; FindRingEdge(vs, hs, ring[0], ring[1], 0).Some?
  {
    var ring := features[fid].polygons[0][0];
    PolygonOfFeature(features, fid, 0);
    var all := AllPolygons(features);
    var q :| 0 <= q < |all| && all[q] == features[fid].polygons[0];
    RingOfPolygons(all, q, 0);
    var rings := Rings(all);
    var i :| 0 <= i < |rings| && rings[i] == Open(Oriented(ring, 0));
    assert rings[i][0] == ring[0] && rings[i][1] == ring[1] && Succ(0, |rings[i]|) == 1;
    assert PointEdgeMade(vs, hs0, rings[i][0], rings[i][1]);
    var va := FindVertexIn(vs, ring[0].x, ring[0].y).value;
    var vb := FindVertexIn(vs, ring[1].x, ring[1].y).value;
    var e := FindHalfEdgeIn(hs0, va, vb).value;
    assert StartsRing(vs, hs0, e, ring[0], ring[1]);
    StartsRingKept(vs, hs0, hs, e, ring[0], ring[1]);
  }

  /**
   * In a paintable input, the ring at (fid, p, r) does not throw, and the first ring of a feature
   * that opens its outer ring face finds its edge with no face yet.
   */
  lemma RingPaintable(vs: seq<Vertex>, hs0: seq<HalfEdge>, hs: seq<HalfEdge>, fs: seq<Face>, features: seq<Feature>,
                      fid: nat, p: nat, r: nat, outer: Option<nat>)
    requires RingsBuilt(vs, hs0, Rings(AllPolygons(features))) && SameButFaces(hs0, hs) && Paintable(features)
    requires FeatureRing(features, fid, p, r)
    requires p == 0 && r == 0 ==> FacesFromRings(vs, hs, fs, features, fid)
    requires (p > 0 || r > 0) && OpensOuterFace(features, fid) ==> outer.Some?
    ensures var ring := Oriented(features[fid].polygons[p][r], r);
      && !RingLookupThrows(vs, hs, ring) && !OrphanInnerRing(vs, hs, fs, ring, r, outer)
      && (p == 0 && r == 0 && OpensOuterFace(features, fid) ==>
            var e := FindRingEdge(vs, hs, ring[0], ring[1], 0);
            e.Some? && FaceOfEdge(fs, e.value, 0).None?)
  {
    var ps := features[fid].polygons;
    assert FeaturePaintable(features, fid);
    var ring := Oriented(ps[p][r], r);
    if r > 0 {
      assert HasInnerRing(ps) by { assert |ps[p]| > 1; }
    }
    if p == 0 && r == 0 && OpensOuterFace(features, fid) {
      FirstEdgeFound(vs, hs0, hs, features, fid);
      var e := FindRingEdge(vs, hs, ring[0], ring[1], 0).value;
      forall f | 0 <= f < |fs| ensures fs[f].edge != Some(e) {
        var e' := fs[f].edge.value;
        assert StartsEarlierRing(vs, hs, e', features, fid);
        var g, p', r' :| FeatureRing(features, g, p', r') && g < fid && |features[g].polygons[p'][r']| >= 2
          && StartsRing(vs, hs, e', FirstEdge(features[g].polygons[p'][r'], r').0, FirstEdge(features[g].polygons[p'][r'], r').1);
        assert FirstEdge(features[g].polygons[p'][r'], r') != FirstEdge(ps[0][0], 0);
      }
    }
  }

  /** A ring painted at `e` keeps the edge of every earlier face, and a new face has edge `e`; an outer ring face, once there, stays. */
  lemma PaintedAtFaces(hs0: seq<HalfEdge>, fs0: seq<Face>, hs: seq<HalfEdge>, fs: seq<Face>,
                       e: nat, ringIdx: nat, fid: nat, outer: Option<nat>, ok: bool, outer': Option<nat>)
    requires PaintedAt(hs0, fs0, hs, fs, e, ringIdx, fid, outer, ok, outer')
    ensures |fs0| <= |fs|
    ensures forall f :: 0 <= f < |fs| ==> fs[f].edge == if f < |fs0| then fs0[f].edge else Some(e)
    ensures ok && outer.Some? ==> outer'.Some?
    ensures ok && ringIdx == 0 && FaceOfEdge(fs0, e, 0).None? ==> outer'.Some?
  {
    match FaceOfEdge(fs0, e, 0)
    case Some(g) =>
    case None =>
      if ringIdx > 0 && outer.Some? {
        var grown := fs0 + [Face(Some(e), [fid], [], outer)];
        assert forall f :: 0 <= f < |fs| ==> fs[f].edge == grown[f].edge;
      }
  }

  /** After a ring is painted, FacesFromRings still holds, once the feature of the ring is counted. */
  lemma FacesAfterRing(vs: seq<Vertex>, hs0: seq<HalfEdge>, fs0: seq<Face>, hs: seq<HalfEdge>, fs: seq<Face>, features: seq<Feature>,
                       fid: nat, p: nat, r: nat, outer: Option<nat>, ok: bool, outer': Option<nat>)
    requires FeatureRing(features, fid, p, r) && SameButFaces(hs0, hs)
    requires FacesFromRings(vs, hs0, fs0, features, fid + 1)
    requires RingPainted(vs, hs0, fs0, hs, fs, Oriented(features[fid].polygons[p][r], r), r, fid, outer, ok, outer')
    ensures FacesFromRings(vs, hs, fs, features, fid + 1)
    ensures ok && outer.Some? ==> outer'.Some?
    ensures var ring := Oriented(features[fid].polygons[p][r], r);
      (ok && r == 0 && |ring| >= 2 && FindRingEdge(vs, hs0, ring[0], ring[1], 0).Some?
       && FaceOfEdge(fs0, FindRingEdge(vs, hs0, ring[0], ring[1], 0).value, 0).None?) ==> outer'.Some?
  {
    var ring := Oriented(features[fid].polygons[p][r], r);
    FacesFromRingsKept(vs, hs0, hs, fs0, features, fid + 1, fid + 1);
    if |ring| >= 2 && FindRingEdge(vs, hs0, ring[0], ring[1], 0).Some? {
      var e := FindRingEdge(vs, hs0, ring[0], ring[1], 0).value;
      PaintedAtFaces(hs0, fs0, hs, fs, e, r, fid, outer, ok, outer');
      StartsRingKept(vs, hs0, hs, e, ring[0], ring[1]);
      assert FirstEdge(features[fid].polygons[p][r], r) == (ring[0], ring[1]);
      assert StartsEarlierRing(vs, hs, e, features, fid + 1);
      forall f | 0 <= f < |fs| ensures fs[f].edge.Some? && fs[f].edge.value < |hs| && StartsEarlierRing(vs, hs, fs[f].edge.value, features, fid + 1) {
        if f < |fs0| {
          assert fs[f].edge == fs0[f].edge;
        }
      }
    }
  }

  /**
   * Phase 4: the rings of every polygon feature, with the feature's index as its id. Once the
   * rings are built and before any face exists, a paintable input never fails.
   */
  method PaintFeatures(d: Dcel, features: seq<Feature>) returns (ok: bool)
    requires d.Valid() && LinkedDcel(d.vertices, d.halfEdges) && AllFacesBounded(d.faces)
    modifies d`halfEdges, d`faces
    ensures ok ==> d.Valid() && LinkedDcel(d.vertices, d.halfEdges) && AllFacesBounded(d.faces)
    ensures SameButFaces(old(d.halfEdges), d.halfEdges)
    ensures RingsBuilt(d.vertices, old(d.halfEdges), Rings(AllPolygons(features))) && old(d.faces) == [] && Paintable(features) ==> ok
  {
    ghost var ready := RingsBuilt(d.vertices, d.halfEdges, Rings(AllPolygons(features))) && d.faces == [] && Paintable(features);
    ghost var hs0 := d.halfEdges;
    if ready {
      assert FeatureReady(d.vertices, hs0, d.halfEdges, d.faces, features, 0);
    }
    var fid := 0;
    while fid < |features|
      invariant 0 <= fid <= |features|
      invariant d.Valid() && LinkedDcel(d.vertices, d.halfEdges) && AllFacesBounded(d.faces)
      invariant SameButFaces(hs0, d.halfEdges)
      invariant ready ==> FeatureReady(d.vertices, hs0, d.halfEdges, d.faces, features, fid)
    {
      var featureOk := PaintFeature(d, features, fid, hs0);
      if !featureOk {
        return false;
      }
      fid := fid + 1;
    }
    return true;
  }

  /** What PaintFeature needs for feature `fid` never to fail. */
  ghost predicate FeatureReady(vs: seq<Vertex>, hs0: seq<HalfEdge>, hs: seq<HalfEdge>, fs: seq<Face>, features: seq<Feature>, fid: nat)
  {
    && RingsBuilt(vs, hs0, Rings(AllPolygons(features))) && SameButFaces(hs0, hs) && Paintable(features)
    && FacesFromRings(vs, hs, fs, features, fid)
  }

  /** The polygons of feature `fid`, which share one outer ring face; a feature of another geometry is skipped. */
  method PaintFeature(d: Dcel, features: seq<Feature>, fid: nat, ghost hs0: seq<HalfEdge>) returns (ok: bool)
    requires d.Valid() && LinkedDcel(d.vertices, d.halfEdges) && AllFacesBounded(d.faces)
    requires fid < |features| && SameButFaces(hs0, d.halfEdges)
    modifies d`halfEdges, d`faces
    ensures ok ==> d.Valid() && LinkedDcel(d.vertices, d.halfEdges) && AllFacesBounded(d.faces)
    ensures SameButFaces(hs0, d.halfEdges)
    ensures FeatureReady(d.vertices, hs0, old(d.halfEdges), old(d.faces), features, fid) ==>
      ok && FeatureReady(d.vertices, hs0, d.halfEdges, d.faces, features, fid + 1)
  {
    if features[fid].OtherGeometry? {
      if FeatureReady(d.vertices, hs0, d.halfEdges, d.faces, features, fid) {
        FacesFromRingsKept(d.vertices, d.halfEdges, d.halfEdges, d.faces, features, fid, fid + 1);
      }
      return true;
    }
    ok := PaintPolygons(d, features, fid, hs0);
  }

  /** The polygon loop of PaintFeature, with the outer ring face shared by all polygons of the feature. */
  method PaintPolygons(d: Dcel, features: seq<Feature>, fid: nat, ghost hs0: seq<HalfEdge>) returns (ok: bool)
    requires d.Valid() && LinkedDcel(d.vertices, d.halfEdges) && AllFacesBounded(d.faces)
    requires fid < |features| && features[fid].Polygons? && SameButFaces(hs0, d.halfEdges)
    modifies d`halfEdges, d`faces
    ensures ok ==> d.Valid() && LinkedDcel(d.vertices, d.halfEdges) && AllFacesBounded(d.faces)
    ensures SameButFaces(hs0, d.halfEdges)
    ensures FeatureReady(d.vertices, hs0, old(d.halfEdges), old(d.faces), features, fid) ==>
      ok && FeatureReady(d.vertices, hs0, d.halfEdges, d.faces, features, fid + 1)
  {
    ghost var ready := FeatureReady(d.vertices, hs0, d.halfEdges, d.faces, features, fid);
    var polygons := features[fid].polygons;
    var outerRingFace: Option<nat> := None;
    if ready {
      FeatureToPolygons(d.vertices, hs0, d.halfEdges, d.faces, features, fid);
    }
    var p := 0;
    while p < |polygons|
      invariant 0 <= p <= |polygons|
      invariant d.Valid() && LinkedDcel(d.vertices, d.halfEdges) && AllFacesBounded(d.faces)
      invariant outerRingFace.Some? ==> outerRingFace.value < |d.faces|
      invariant SameButFaces(hs0, d.halfEdges)
      invariant ready ==> PolygonReady(d.vertices, hs0, d.halfEdges, d.faces, features, fid, p, outerRingFace)
    {
      var polygonOk;
      polygonOk, outerRingFace := PaintPolygon(d, features, fid, p, outerRingFace, hs0);
      if !polygonOk {
        return false;
      }
      p := p + 1;
    }
    if ready {
      PolygonsToFeature(d.vertices, hs0, d.halfEdges, d.faces, features, fid, p, outerRingFace);
    }
    return true;
  }

  lemma FeatureToPolygons(vs: seq<Vertex>, hs0: seq<HalfEdge>, hs: seq<HalfEdge>, fs: seq<Face>, features: seq<Feature>, fid: nat)
    requires fid < |features| && features[fid].Polygons? && FeatureReady(vs, hs0, hs, fs, features, fid)
    ensures PolygonReady(vs, hs0, hs, fs, features, fid, 0, None)
  {
    FacesFromRingsKept(vs, hs, hs, fs, features, fid, fid + 1);
  }

  lemma PolygonsToFeature(vs: seq<Vertex>, hs0: seq<HalfEdge>, hs: seq<HalfEdge>, fs: seq<Face>, features: seq<Feature>,
                          fid: nat, p: nat, outer: Option<nat>)
    requires fid < |features| && features[fid].Polygons? && PolygonReady(vs, hs0, hs, fs, features, fid, p, outer)
    ensures FeatureReady(vs, hs0, hs, fs, features, fid + 1)
  {
  }

  /** What PaintPolygon needs for polygon `p` of feature `fid` never to fail. */
  ghost predicate PolygonReady(vs: seq<Vertex>, hs0: seq<HalfEdge>, hs: seq<HalfEdge>, fs: seq<Face>, features: seq<Feature>,
                               fid: nat, p: nat, outer: Option<nat>)
    requires fid < |features| && features[fid].Polygons?
  {
    && RingsBuilt(vs, hs0, Rings(AllPolygons(features))) && SameButFaces(hs0, hs) && Paintable(features)
    && FacesFromRings(vs, hs, fs, features, fid + 1)
    && (p == 0 ==> FacesFromRings(vs, hs, fs, features, fid))
    && (p > 0 && OpensOuterFace(features, fid) ==> outer.Some?)
  }

  /** The rings of polygon `p` of feature `fid`, outer ring first (`polygon.forEach`). */
  method PaintPolygon(d: Dcel, features: seq<Feature>, fid: nat, p: nat, outer: Option<nat>, ghost hs0: seq<HalfEdge>)
    returns (ok: bool, outer': Option<nat>)
    requires d.Valid() && LinkedDcel(d.vertices, d.halfEdges) && AllFacesBounded(d.faces)
    requires fid < |features| && features[fid].Polygons? && p < |features[fid].polygons|
    requires outer.Some? ==> outer.value < |d.faces|
    requires SameButFaces(hs0, d.halfEdges)
    modifies d`halfEdges, d`faces
    ensures ok ==> d.Valid() && LinkedDcel(d.vertices, d.halfEdges) && AllFacesBounded(d.faces)
    ensures ok ==> outer'.Some? ==> outer'.value < |d.faces|
    ensures SameButFaces(hs0, d.halfEdges)
    ensures PolygonReady(d.vertices, hs0, old(d.halfEdges), old(d.faces), features, fid, p, outer) ==>
      ok && PolygonReady(d.vertices, hs0, d.halfEdges, d.faces, features, fid, p + 1, outer')
  {
    ghost var ready := PolygonReady(d.vertices, hs0, d.halfEdges, d.faces, features, fid, p, outer);
    var polygon := features[fid].polygons[p];
    outer' := outer;
    var r := 0;
    while r < |polygon|
      invariant 0 <= r <= |polygon|
      invariant d.Valid() && LinkedDcel(d.vertices, d.halfEdges) && AllFacesBounded(d.faces)
      invariant outer'.Some? ==> outer'.value < |d.faces|
      invariant SameButFaces(hs0, d.halfEdges)
      invariant ready ==> FacesFromRings(d.vertices, d.halfEdges, d.faces, features, fid + 1)
      invariant ready && p == 0 && r == 0 ==> FacesFromRings(d.vertices, d.halfEdges, d.faces, features, fid)
      invariant ready && (p > 0 || r > 0) && OpensOuterFace(features, fid) ==> outer'.Some?
    {
      var ringOk;
      ghost var hs1, fs1, outer1 := d.halfEdges, d.faces, outer';
      if ready {
        RingPaintable(d.vertices, hs0, hs1, fs1, features, fid, p, r, outer1);
      }
      ringOk, outer' := PaintRing(d, Oriented(polygon[r], r), r, fid, outer');
      SameButFacesTransitive(hs0, hs1, d.halfEdges);
      if ready {
        FacesAfterRing(d.vertices, hs1, fs1, d.halfEdges, d.faces, features, fid, p, r, outer1, ringOk, outer');
      }
      if !ringOk {
        return false, outer';
      }
      r := r + 1;
    }
    return true, outer';
  }

  // ----- phase 5: the unbounded face -----

  ghost function Faceless(hs: seq<HalfEdge>): set<nat>
  {
    set e | 0 <= e < |hs| && hs[e].face.None?
  }

  /** The first half-edge without a face: `getHalfEdges().find((edge) => !edge.face)`. */
  function FirstFaceless(hs: seq<HalfEdge>, from: nat): (r: Option<nat>)
    requires from <= |hs|
    ensures r.Some? ==> from <= r.value < |hs| && hs[r.value].face.None?
    ensures r.Some? ==> forall e :: from <= e < r.value ==> hs[e].face.Some?
    ensures r.None? ==> forall e :: from <= e < |hs| ==> hs[e].face.Some?
    decreases |hs| - from
  {
    if from == |hs| then None
    else if hs[from].face.None? then Some(from)
    else FirstFaceless(hs, from + 1)
  }

  /**
   * Phase 5: one new face, given to every cycle of edges still without a face. Afterwards every
   * edge has a face, every edge that had none has the new one, and every other edge has its old
   * face or the new one.
   */
  method PaintUnbounded(d: Dcel) returns (u: nat)
    requires d.Valid() && LinkedDcel(d.vertices, d.halfEdges)
    modifies d`halfEdges, d`faces
    ensures d.Valid() && LinkedDcel(d.vertices, d.halfEdges)
    ensures d.faces == old(d.faces) + [NewFace()] && u == |old(d.faces)|
    ensures SameButFaces(old(d.halfEdges), d.halfEdges)
    ensures forall e :: 0 <= e < |d.halfEdges| ==> d.halfEdges[e].face.Some?
    ensures forall e :: 0 <= e < |d.halfEdges| ==> d.halfEdges[e].face == old(d.halfEdges[e].face) || d.halfEdges[e].face == Some(u)
    ensures forall e :: 0 <= e < |d.halfEdges| && old(d.halfEdges[e].face).None? ==> d.halfEdges[e].face == Some(u)
  {
    u := d.MakeFace();
    ghost var hs0 := d.halfEdges;
    PaintFaceless(d, u);
    SameButFacesKeepsLinks(d.vertices, hs0, d.halfEdges);
  }

  /** The loop of phase 5: while some edge has no face, its cycle gets `u`. */
  method PaintFaceless(d: Dcel, u: nat)
    requires d.Valid() && u < |d.faces|
    modifies d`halfEdges
    ensures d.Valid() && SameButFaces(old(d.halfEdges), d.halfEdges)
    ensures forall e :: 0 <= e < |d.halfEdges| ==> d.halfEdges[e].face.Some?
    ensures forall e :: 0 <= e < |d.halfEdges| ==> d.halfEdges[e].face == old(d.halfEdges[e].face) || d.halfEdges[e].face == Some(u)
  {
    var outerEdge := FirstFaceless(d.halfEdges, 0);
    while outerEdge.Some?
      invariant d.Valid() && SameButFaces(old(d.halfEdges), d.halfEdges)
      invariant outerEdge == FirstFaceless(d.halfEdges, 0)
      invariant forall e :: 0 <= e < |d.halfEdges| ==> d.halfEdges[e].face == old(d.halfEdges[e].face) || d.halfEdges[e].face == Some(u)
      decreases |Faceless(d.halfEdges)|
    {
      ghost var hs1 := d.halfEdges;
      PaintUnboundedCycle(d, outerEdge.value, u);
      SameButFacesTransitive(old(d.halfEdges), hs1, d.halfEdges);
      outerEdge := FirstFaceless(d.halfEdges, 0);
    }
  }

  lemma SameButFacesTransitive(hs1: seq<HalfEdge>, hs2: seq<HalfEdge>, hs3: seq<HalfEdge>)
    requires SameButFaces(hs1, hs2) && SameButFaces(hs2, hs3)
    ensures SameButFaces(hs1, hs3)
  {
    forall e | 0 <= e < |hs1| ensures hs3[e] == hs1[e].(face := hs3[e].face) {
      assert hs2[e] == hs1[e].(face := hs2[e].face);
    }
  }

  /** One round of phase 5: the cycle of a faceless edge gets the unbounded face. */
  method PaintUnboundedCycle(d: Dcel, e: nat, u: nat)
    requires d.Valid() && u < |d.faces|
    requires e < |d.halfEdges| && d.halfEdges[e].face.None?
    modifies d`halfEdges
    ensures d.Valid() && SameButFaces(old(d.halfEdges), d.halfEdges)
    ensures |Faceless(d.halfEdges)| < |Faceless(old(d.halfEdges))|
    ensures forall x :: 0 <= x < |d.halfEdges| ==> d.halfEdges[x].face == old(d.halfEdges[x].face) || d.halfEdges[x].face == Some(u)
  {
    PaintCycle(d, Cycle(d.halfEdges, e), u);
    PaintedFewer(old(d.halfEdges), d.halfEdges, e, u);
  }

  /** Painting the cycle of a faceless edge with `u` changes faces only to `u` and leaves fewer faceless edges. */
  lemma PaintedFewer(hs1: seq<HalfEdge>, hs2: seq<HalfEdge>, e: nat, u: nat)
    requires |hs1| == |hs2| && e < |hs1| && hs1[e].face.None?
    requires forall x :: 0 <= x < |hs2| ==> hs2[x].face == if x in Cycle(hs1, e) then Some(u) else hs1[x].face
    ensures |Faceless(hs2)| < |Faceless(hs1)|
    ensures forall x :: 0 <= x < |hs2| ==> hs2[x].face == hs1[x].face || hs2[x].face == Some(u)
  {
    assert Cycle(hs1, e)[0] == e;
    FewerFaceless(hs1, hs2, e);
  }

  /** Painting the cycle of a faceless edge leaves fewer faceless edges. */
  lemma FewerFaceless(hs1: seq<HalfEdge>, hs2: seq<HalfEdge>, e: nat)
    requires |hs1| == |hs2| && e < |hs1| && hs1[e].face.None? && hs2[e].face.Some?
    requires forall x :: 0 <= x < |hs2| ==> hs2[x].face == hs1[x].face || hs2[x].face.Some?
    ensures |Faceless(hs2)| < |Faceless(hs1)|
  {
    assert e in Faceless(hs1) && e !in Faceless(hs2);
    assert Faceless(hs2) <= Faceless(hs1) - {e} by {
      forall x | x in Faceless(hs2) ensures x in Faceless(hs1) - {e} {
        assert hs2[x].face.None? && hs1[x].face == hs2[x].face;
      }
    }
    assert |Faceless(hs1) - {e}| == |Faceless(hs1)| - 1;
    SubsetCardinality(Faceless(hs2), Faceless(hs1) - {e});
  }

  lemma {:induction false} SubsetCardinality(a: set<nat>, b: set<nat>)
    requires a <= b
    ensures |a| <= |b|
    decreases |b|
  {
    if a != {} {
      var x :| x in a;
      SubsetCardinality(a - {x}, b - {x});
    }
  }

  // ----- the whole construction -----

  /** The subdivision is complete: twins, links and faces all set, and one unbounded face, the last. */
  ghost predicate Complete(d: Dcel)
    reads d
  {
    && d.Valid() && LinkedDcel(d.vertices, d.halfEdges)
    && (forall e :: 0 <= e < |d.halfEdges| ==> d.halfEdges[e].face.Some?)
    && |d.faces| > 0
    && (forall f :: 0 <= f < |d.faces| - 1 ==> d.faces[f].edge.Some?)
    && d.faces[|d.faces| - 1].edge.None?
  }

  /** The unbounded face of a complete subdivision is its last face, and all others are bounded. */
  lemma CompleteFaces(d: Dcel)
    requires Complete(d)
    ensures d.GetUnboundedFace() == Some(|d.faces| - 1)
    ensures forall f :: 0 <= f < |d.faces| - 1 ==> f in d.GetBoundedFaces()
    ensures |d.faces| - 1 !in d.GetBoundedFaces()
  {
  }

  /** Orienting and opening a ring of ids and its ring of points keeps the one standing for the other. */
  lemma MapsToOpenOriented(vs: seq<Vertex>, ids: seq<nat>, ring: seq<Point>, r: nat)
    requires MapsTo(vs, ids, ring)
    ensures MapsTo(vs, Open(Oriented(ids, r)), Open(Oriented(ring, r)))
  {
    var o1, o2 := Oriented(ids, r), Oriented(ring, r);
    assert forall k :: 0 <= k < |o1| ==> o1[k] < |vs| && vs[o1[k]].x == o2[k].x && vs[o1[k]].y == o2[k].y by {
      forall k | 0 <= k < |o1| ensures o1[k] < |vs| && vs[o1[k]].x == o2[k].x && vs[o1[k]].y == o2[k].y {
        if r > 0 {
          assert o1[k] == ids[|ids| - 1 - k] && o2[k] == ring[|ring| - 1 - k];
        }
      }
    }
  }

  /** Ring by ring, the ids stand for the points. */
  ghost predicate RingsMapTo(vs: seq<Vertex>, idRings: seq<seq<nat>>, rings: seq<seq<Point>>)
  {
    |idRings| == |rings| && forall i :: 0 <= i < |idRings| ==> MapsTo(vs, idRings[i], rings[i])
  }

  /** The rings the pairing walks, over ids, stand for the rings of the polygons' points. */
  lemma {:induction false} RingsOfMapped(vs: seq<Vertex>, ids: seq<seq<seq<nat>>>, polygons: seq<seq<seq<Point>>>)
    requires PolygonsMapTo(vs, ids, polygons)
    ensures RingsMapTo(vs, Rings(ids), Rings(polygons))
    decreases |ids|
  {
    if |ids| > 0 {
      var n := |ids| - 1;
      assert PolygonsMapTo(vs, ids[..n], polygons[..n]) by {
        forall p | 0 <= p < n ensures PolygonMapsTo(vs, ids[..n][p], polygons[..n][p]) {
          assert PolygonMapsTo(vs, ids[p], polygons[p]);
        }
      }
      RingsOfMapped(vs, ids[..n], polygons[..n]);
      var front1, front2 := Rings(ids[..n]), Rings(polygons[..n]);
      var last1, last2 := PolygonRings(ids[n]), PolygonRings(polygons[n]);
      assert PolygonMapsTo(vs, ids[n], polygons[n]);
      forall i | 0 <= i < |front1 + last1| ensures MapsTo(vs, (front1 + last1)[i], (front2 + last2)[i]) {
        if i >= |front1| {
          var r := i - |front1|;
          MapsToOpenOriented(vs, ids[n][r], polygons[n][r], r);
        }
      }
    }
  }

  /** The vertex's coordinates as a point. */
  function VertexPoint(vs: seq<Vertex>, v: nat): Point
    requires v < |vs|
  {
    Point(vs[v].x, vs[v].y)
  }

  /** Both points have vertices, and the half-edge between those vertices exists and is twinned with the one back. */
  ghost predicate PointEdgeMade(vs: seq<Vertex>, hs: seq<HalfEdge>, a: Point, b: Point)
  {
    var va, vb := FindVertexIn(vs, a.x, a.y), FindVertexIn(vs, b.x, b.y);
    va.Some? && vb.Some? && EdgeMade(hs, va.value, vb.value)
  }

  /** Every edge of every ring is a twinned half-edge between the vertices at its two points. */
  ghost predicate RingsBuilt(vs: seq<Vertex>, hs: seq<HalfEdge>, rings: seq<seq<Point>>)
  {
    forall i, k :: 0 <= i < |rings| && 0 <= k < |rings[i]| ==> PointEdgeMade(vs, hs, rings[i][k], rings[i][Succ(k, |rings[i]|)])
  }

  /** Every half-edge runs between the two points of a ring edge, one way or the other. */
  ghost predicate EdgesFromRings(vs: seq<Vertex>, hs: seq<HalfEdge>, rings: seq<seq<Point>>)
  {
    forall e :: 0 <= e < |hs| ==>
      hs[e].tail < |vs| && hs[e].head < |vs| && OnRings(rings, VertexPoint(vs, hs[e].tail), VertexPoint(vs, hs[e].head))
  }

  /** The ring edges over ids, all present, are the ring edges over points, all built. */
  lemma IdRingsBuilt(vs: seq<Vertex>, hs: seq<HalfEdge>, idRings: seq<seq<nat>>, rings: seq<seq<Point>>)
    requires VertexKeysDistinct(vs) && EdgeKeysDistinct(hs) && Paired(hs) && AllTwinned(hs)
    requires RingsMapTo(vs, idRings, rings) && RingsPresent(hs, idRings)
    ensures RingsBuilt(vs, hs, rings)
  {
    forall i, k | 0 <= i < |rings| && 0 <= k < |rings[i]|
      ensures PointEdgeMade(vs, hs, rings[i][k], rings[i][Succ(k, |rings[i]|)])
    {
      assert MapsTo(vs, idRings[i], rings[i]) && RingPresent(hs, idRings[i]);
      var ring := idRings[i];
      var a, b := ring[k], ring[Succ(k, |ring|)];
      FindVertexUnique(vs, a);
      FindVertexUnique(vs, b);
      HasEdgeIsMade(hs, a, b);
    }
  }

  /** Half-edges that are ring edges over ids, or their twins, run between the points of ring edges. */
  lemma IdEdgesFromRings(vs: seq<Vertex>, hs: seq<HalfEdge>, idRings: seq<seq<nat>>, rings: seq<seq<Point>>)
    requires RingsMapTo(vs, idRings, rings) && MadeFromRings(hs, 0, idRings)
    ensures EdgesFromRings(vs, hs, rings)
  {
    forall e | 0 <= e < |hs|
      ensures hs[e].tail < |vs| && hs[e].head < |vs| && OnRings(rings, VertexPoint(vs, hs[e].tail), VertexPoint(vs, hs[e].head))
    {
      assert OnRings(idRings, hs[e].tail, hs[e].head);
      var i :| 0 <= i < |idRings| && OnRing(idRings[i], hs[e].tail, hs[e].head);
      var k :| RingEdgeAt(idRings[i], k, hs[e].tail, hs[e].head);
      assert MapsTo(vs, idRings[i], rings[i]);
      assert RingEdgeAt(rings[i], k, VertexPoint(vs, hs[e].tail), VertexPoint(vs, hs[e].head));
    }
  }

  /** Changing only links or faces keeps every ring edge present and every half-edge a ring edge or its twin. */
  lemma RingFactsKept(hs1: seq<HalfEdge>, hs2: seq<HalfEdge>, rings: seq<seq<nat>>)
    requires SameEdgeKeys(hs1, hs2) && RingsPresent(hs1, rings) && MadeFromRings(hs1, 0, rings)
    ensures RingsPresent(hs2, rings) && MadeFromRings(hs2, 0, rings)
  {
    forall i, k | 0 <= i < |rings| && 0 <= k < |rings[i]| ensures HasEdge(hs2, rings[i][k], rings[i][Succ(k, |rings[i]|)]) {
      assert RingPresent(hs1, rings[i]);
      HasEdgeKept(hs1, hs2, rings[i][k], rings[i][Succ(k, |rings[i]|)]);
    }
    forall x | 0 <= x < |hs2| ensures OnRings(rings, hs2[x].tail, hs2[x].head) {
      assert OnRings(rings, hs1[x].tail, hs1[x].head);
    }
  }

  /**
   * What the pairing phase made survives the linking and painting phases: every ring edge of every
   * polygon is a half-edge twinned with the one back, and every half-edge is a ring edge or its twin.
   */
  lemma BuiltFromRings(vs1: seq<Vertex>, vs: seq<Vertex>, ids: seq<seq<seq<nat>>>, polygons: seq<seq<seq<Point>>>,
                       hsP: seq<HalfEdge>, hsL: seq<HalfEdge>, hs: seq<HalfEdge>)
    requires PolygonsMapTo(vs1, ids, polygons) && SameCoordinates(vs1, vs) && VertexKeysDistinct(vs)
    requires RingsPresent(hsP, Rings(ids)) && MadeFromRings(hsP, 0, Rings(ids))
    requires EdgeKeysDistinct(hsL) && Paired(hsL) && AllTwinned(hsL)
    requires SameButLinks(hsP, hsL) && SameButFaces(hsL, hs)
    ensures RingsBuilt(vs, hs, Rings(polygons)) && EdgesFromRings(vs, hs, Rings(polygons))
  {
    MapsToKept(vs1, vs, ids, polygons);
    RingsOfMapped(vs, ids, polygons);
    assert SameEdgeKeys(hsP, hs) by {
      forall e | 0 <= e < |hsP| ensures hs[e].tail == hsP[e].tail && hs[e].head == hsP[e].head {
        assert hsL[e] == hsP[e].(next := hsL[e].next, prev := hsL[e].prev);
        assert hs[e] == hsL[e].(face := hs[e].face);
      }
    }
    RingFactsKept(hsP, hs, Rings(ids));
    SameButFacesKeepsKeys(hsL, hs);
    SameButFacesKeepsPaired(hsL, hs);
    assert AllTwinned(hs) by {
      SameButFacesKeepsLinks(vs, hsL, hs);
    }
    IdRingsBuilt(vs, hs, Rings(ids), Rings(polygons));
    IdEdgesFromRings(vs, hs, Rings(ids), Rings(polygons));
  }

  /**
   * Dcel.fromGeoJSON over in-memory rings. `ok` is false when the source throws: an empty ring
   * while some half-edge exists, a one-point ring at which some half-edge starts, or an inner ring
   * that needs a new face while its feature has no outer ring face. A paintable input (rings of
   * two points or more, and the outer ring face opened first in a feature with holes) never fails.
   */
  method FromGeoJSON(features: seq<Feature>, sortEdges: (nat, seq<nat>) -> seq<nat>) returns (d: Dcel, ok: bool)
    requires forall v: nat, es: seq<nat> :: multiset(sortEdges(v, es)) == multiset(es)
    ensures fresh(d)
    ensures HasVertexFor(d.vertices, AllPolygons(features))
    ensures RingsBuilt(d.vertices, d.halfEdges, Rings(AllPolygons(features)))
    ensures EdgesFromRings(d.vertices, d.halfEdges, Rings(AllPolygons(features)))
    ensures Paintable(features) ==> ok
    ensures ok ==> Complete(d)
  {
    d := new Dcel();
    var ids := AddVertices(d, features);
    MappedPointsHaveVertices(d.vertices, ids, AllPolygons(features));
    ghost var vs1 := d.vertices;
    assert IdsInRange(ids, |d.vertices|) by {
      forall p, r, k | 0 <= p < |ids| && 0 <= r < |ids[p]| && 0 <= k < |ids[p][r]|
        ensures ids[p][r][k] < |d.vertices|
      {
        assert PolygonMapsTo(d.vertices, ids[p], AllPolygons(features)[p]);
        assert MapsTo(d.vertices, ids[p][r], AllPolygons(features)[p][r]);
      }
    }
    PairAllRings(d, ids);
    ghost var hsP := d.halfEdges;
    LinkAll(d, sortEdges);
    ghost var hsL := d.halfEdges;
    HasVertexForKept(vs1, d.vertices, AllPolygons(features));
    BuiltFromRings(vs1, d.vertices, ids, AllPolygons(features), hsP, hsL, hsL);
    ok := PaintFeatures(d, features);
    if ok {
      ghost var fs, hsF := d.faces, d.halfEdges;
      var u := PaintUnbounded(d);
      assert forall f :: 0 <= f < |d.faces| - 1 ==> d.faces[f] == fs[f];
      SameButFacesTransitive(hsL, hsF, d.halfEdges);
    }
    BuiltFromRings(vs1, d.vertices, ids, AllPolygons(features), hsP, hsL, d.halfEdges);
  }
}
