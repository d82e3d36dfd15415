/**
 * The doubly connected edge list of src/lib/DCEL/Dcel.ts, as an arena: vertices, half-edges and
 * faces live in sequences and refer to each other by index. The source's `vertices` and
 * `halfEdges` Maps are keyed by coordinates and by (tail, head); their insertion order is the
 * order of the sequences here.
 */
module Dcel {
  import opened Wrappers
  import opened Geometry
  import opened HalfEdgeClasses

  /** A vertex: its coordinates (the map key), its outgoing half-edges and whether it is significant. */
  datatype Vertex = Vertex(x: real, y: real, edges: seq<nat>, significant: bool)

  /**
   * A half-edge. `head` is the second part of its map key; `configured` records that a
   * Configuration was attached to it.
   */
  datatype HalfEdge = HalfEdge(
    tail: nat,
    head: nat,
    twin: Option<nat>,
    next: Option<nat>,
    prev: Option<nat>,
    face: Option<nat>,
    cls: Option<OrientationClass>,
    configured: bool)

  /** A face: its representative edge (none for the unbounded face), feature ids, holes and enclosing face. */
  datatype Face = Face(edge: Option<nat>, fid: seq<nat>, innerEdges: seq<nat>, outerRing: Option<nat>)

  function NewHalfEdge(tail: nat, head: nat): HalfEdge
  {
    HalfEdge(tail, head, None, None, None, None, None, false)
  }

  function NewFace(): Face
  {
    Face(None, [], [], None)
  }

  // ----- well-formedness of the arena -----

  predicate VerticesDiffer(vs: seq<Vertex>, i: nat, j: nat)
    requires i < |vs| && j < |vs|
  {
    vs[i].x != vs[j].x || vs[i].y != vs[j].y
  }

  /** No two vertices share coordinates (the quantifier is instantiated only for pairs a proof names). */
  ghost predicate VertexKeysDistinct(vs: seq<Vertex>)
  {
    forall i, j {:trigger VerticesDiffer(vs, i, j)} :: 0 <= i < j < |vs| ==> VerticesDiffer(vs, i, j)
  }

  predicate EdgesDiffer(hs: seq<HalfEdge>, i: nat, j: nat)
    requires i < |hs| && j < |hs|
  {
    hs[i].tail != hs[j].tail || hs[i].head != hs[j].head
  }

  /** No two half-edges share tail and head. */
  ghost predicate EdgeKeysDistinct(hs: seq<HalfEdge>)
  {
    forall i, j {:trigger EdgesDiffer(hs, i, j)} :: 0 <= i < j < |hs| ==> EdgesDiffer(hs, i, j)
  }

  predicate RefsOk(h: HalfEdge, nv: nat, ne: nat, nf: nat)
  {
    && h.tail < nv && h.head < nv
    && (h.twin.Some? ==> h.twin.value < ne)
    && (h.next.Some? ==> h.next.value < ne)
    && (h.prev.Some? ==> h.prev.value < ne)
    && (h.face.Some? ==> h.face.value < nf)
  }

  predicate FaceOk(f: Face, ne: nat, nf: nat)
  {
    && (f.edge.Some? ==> f.edge.value < ne)
    && (forall k :: 0 <= k < |f.innerEdges| ==> f.innerEdges[k] < ne)
    && (f.outerRing.Some? ==> f.outerRing.value < nf)
  }

  predicate ElementsDiffer(s: seq<nat>, i: nat, j: nat)
    requires i < |s| && j < |s|
  {
    s[i] != s[j]
  }

  /** No repetitions. */
  ghost predicate Distinct(s: seq<nat>)
  {
    forall i, j {:trigger ElementsDiffer(s, i, j)} :: 0 <= i < j < |s| ==> ElementsDiffer(s, i, j)
  }

  /** Each vertex lists only half-edges whose tail it is. */
  ghost predicate ListedTails(vs: seq<Vertex>, hs: seq<HalfEdge>)
  {
    forall v, k :: 0 <= v < |vs| && 0 <= k < |vs[v].edges| ==> vs[v].edges[k] < |hs| && hs[vs[v].edges[k]].tail == v
  }

  /** No vertex lists an edge twice. */
  ghost predicate ListsDistinct(vs: seq<Vertex>)
  {
    forall v :: 0 <= v < |vs| ==> Distinct(vs[v].edges)
  }

  /** Each half-edge is listed by its tail. */
  ghost predicate ListsComplete(vs: seq<Vertex>, hs: seq<HalfEdge>)
  {
    forall e :: 0 <= e < |hs| && hs[e].tail < |vs| ==> e in vs[hs[e].tail].edges
  }

  /** Each vertex lists exactly the half-edges whose tail it is, each once. */
  ghost predicate EdgeListsExact(vs: seq<Vertex>, hs: seq<HalfEdge>)
  {
    ListedTails(vs, hs) && ListsDistinct(vs) && ListsComplete(vs, hs)
  }

  ghost predicate Wf(vs: seq<Vertex>, hs: seq<HalfEdge>, fs: seq<Face>)
  {
    && VertexKeysDistinct(vs)
    && EdgeKeysDistinct(hs)
    && (forall e :: 0 <= e < |hs| ==> RefsOk(hs[e], |vs|, |hs|, |fs|))
    && (forall f :: 0 <= f < |fs| ==> FaceOk(fs[f], |hs|, |fs|))
    && EdgeListsExact(vs, hs)
  }

  // ----- twins and links -----

  /** Every twin runs the other way: its key is the edge's key swapped. */
  ghost predicate Paired(hs: seq<HalfEdge>)
  {
    forall e {:trigger hs[e].twin} :: 0 <= e < |hs| && hs[e].twin.Some? ==>
      hs[e].twin.value < |hs| && hs[hs[e].twin.value].tail == hs[e].head && hs[hs[e].twin.value].head == hs[e].tail
  }

  ghost predicate AllTwinned(hs: seq<HalfEdge>)
  {
    forall e :: 0 <= e < |hs| ==> hs[e].twin.Some?
  }

  /** twin(twin(e)) == e. */
  lemma TwinInvolution(hs: seq<HalfEdge>, e: nat)
    requires EdgeKeysDistinct(hs) && Paired(hs) && AllTwinned(hs) && e < |hs|
    ensures hs[e].twin.value < |hs| && hs[hs[e].twin.value].twin == Some(e)
  {
    var t := hs[e].twin.value;
    var u := hs[t].twin.value;
    EdgeKeyDetermines(hs, u, e);
  }

  /** Keys are unique: two half-edges with the same tail and head are the same. */
  lemma EdgeKeyDetermines(hs: seq<HalfEdge>, a: nat, b: nat)
    requires EdgeKeysDistinct(hs) && a < |hs| && b < |hs|
    requires hs[a].tail == hs[b].tail && hs[a].head == hs[b].head
    ensures a == b
  {
    assert a < b ==> EdgesDiffer(hs, a, b);
    assert b < a ==> EdgesDiffer(hs, b, a);
  }

  /** Distinct edges have distinct twins. */
  lemma TwinInjective(hs: seq<HalfEdge>, a: nat, b: nat)
    requires EdgeKeysDistinct(hs) && Paired(hs) && AllTwinned(hs) && a < |hs| && b < |hs| && a != b
    ensures hs[a].twin != hs[b].twin
  {
    TwinInvolution(hs, a);
    TwinInvolution(hs, b);
  }

  /** The position after `k` in a cyclic list of `n` positions, `(k + 1) % n`. */
  function Succ(k: nat, n: nat): (r: nat)
    requires k < n
    ensures r < n
  {
    if k + 1 < n then k + 1 else 0
  }

  lemma SuccIsModulo(k: nat, n: nat)
    requires k < n
    ensures Succ(k, n) == (k + 1) % n
  {
    if k + 1 == n {
      assert (k + 1) % n == 0;
    }
  }

  /**
   * The link made for the k-th outgoing edge e1 of vertex v and the one after it, e2 (cyclically):
   * e1.twin.next == e2 and e2.prev == e1.twin.
   */
  ghost predicate LinkedAt(vs: seq<Vertex>, hs: seq<HalfEdge>, v: nat, k: nat)
  {
    && v < |vs| && k < |vs[v].edges|
    && var es := vs[v].edges;
    && var e1 := es[k];
    && var e2 := es[Succ(k, |es|)];
    && e1 < |hs| && e2 < |hs|
    && (hs[e1].twin.Some? ==>
         hs[e1].twin.value < |hs| && hs[hs[e1].twin.value].next == Some(e2) && hs[e2].prev == hs[e1].twin)
  }

  ghost predicate Linked(vs: seq<Vertex>, hs: seq<HalfEdge>)
  {
    forall v, k :: 0 <= v < |vs| && 0 <= k < |vs[v].edges| ==> LinkedAt(vs, hs, v, k)
  }

  /** In a linked subdivision every half-edge has a successor, and the successor's predecessor is the edge. */
  lemma NextThenPrev(vs: seq<Vertex>, hs: seq<HalfEdge>, fs: seq<Face>, t: nat)
    requires Wf(vs, hs, fs) && Paired(hs) && AllTwinned(hs) && Linked(vs, hs) && t < |hs|
    ensures hs[t].next.Some? && hs[t].next.value < |hs| && hs[hs[t].next.value].prev == Some(t)
  {
    var e1 := hs[t].twin.value;
    TwinInvolution(hs, t);
    var v := hs[e1].tail;
    assert RefsOk(hs[e1], |vs|, |hs|, |fs|);
    assert e1 in vs[v].edges;
    var k :| 0 <= k < |vs[v].edges| && vs[v].edges[k] == e1;
    assert LinkedAt(vs, hs, v, k);
  }

  /** In a linked subdivision every half-edge has a predecessor, and the predecessor's successor is the edge. */
  lemma PrevThenNext(vs: seq<Vertex>, hs: seq<HalfEdge>, fs: seq<Face>, e: nat)
    requires Wf(vs, hs, fs) && Paired(hs) && AllTwinned(hs) && Linked(vs, hs) && e < |hs|
    ensures hs[e].prev.Some? && hs[e].prev.value < |hs| && hs[hs[e].prev.value].next == Some(e)
  {
    var v := hs[e].tail;
    assert RefsOk(hs[e], |vs|, |hs|, |fs|);
    var es := vs[v].edges;
    assert e in es;
    var p :| 0 <= p < |es| && es[p] == e;
    var k := PreviousPosition(p, |es|);
    assert LinkedAt(vs, hs, v, k);
    assert es[k] < |hs| && hs[es[k]].twin.Some?;
  }

  /** The cyclic predecessor of position p among n. */
  lemma PreviousPosition(p: nat, n: nat) returns (k: nat)
    requires p < n
    ensures k < n && Succ(k, n) == p
  {
    if p == 0 {
      k := n - 1;
    } else {
      k := p - 1;
    }
  }

  /** Two half-edge arenas that differ at most in the faces of their edges. */
  ghost predicate SameButFaces(hs1: seq<HalfEdge>, hs2: seq<HalfEdge>)
  {
    |hs1| == |hs2| && forall e :: 0 <= e < |hs1| ==> hs2[e] == hs1[e].(face := hs2[e].face)
  }

  /** Painting faces keeps keys, twins and links. */
  lemma SameButFacesKeepsLinks(vs: seq<Vertex>, hs1: seq<HalfEdge>, hs2: seq<HalfEdge>)
    requires SameButFaces(hs1, hs2)
    ensures EdgeKeysDistinct(hs1) ==> EdgeKeysDistinct(hs2)
    ensures Paired(hs1) ==> Paired(hs2)
    ensures AllTwinned(hs1) ==> AllTwinned(hs2)
    ensures EdgeListsExact(vs, hs1) ==> EdgeListsExact(vs, hs2)
    ensures Linked(vs, hs1) ==> Linked(vs, hs2)
  {
    if EdgeKeysDistinct(hs1) {
      SameButFacesKeepsKeys(hs1, hs2);
    }
    if Paired(hs1) {
      SameButFacesKeepsPaired(hs1, hs2);
    }
    if EdgeListsExact(vs, hs1) {
      SameButFacesKeepsLists(vs, hs1, hs2);
    }
    if Linked(vs, hs1) {
      SameButFacesKeepsLinked(vs, hs1, hs2);
    }
  }

  lemma SameButFacesKeepsPaired(hs1: seq<HalfEdge>, hs2: seq<HalfEdge>)
    requires SameButFaces(hs1, hs2) && Paired(hs1)
    ensures Paired(hs2)
  {
    forall e | 0 <= e < |hs2| && hs2[e].twin.Some?
      ensures hs2[e].twin.value < |hs2| && hs2[hs2[e].twin.value].tail == hs2[e].head && hs2[hs2[e].twin.value].head == hs2[e].tail
    {
      assert hs2[e].twin == hs1[e].twin;
    }
  }

  lemma SameButFacesKeepsLists(vs: seq<Vertex>, hs1: seq<HalfEdge>, hs2: seq<HalfEdge>)
    requires SameButFaces(hs1, hs2) && EdgeListsExact(vs, hs1)
    ensures EdgeListsExact(vs, hs2)
  {
    forall v, k | 0 <= v < |vs| && 0 <= k < |vs[v].edges|
      ensures vs[v].edges[k] < |hs2| && hs2[vs[v].edges[k]].tail == v
    {
      assert vs[v].edges[k] < |hs1| && hs1[vs[v].edges[k]].tail == v;
    }
    forall e | 0 <= e < |hs2| && hs2[e].tail < |vs| ensures e in vs[hs2[e].tail].edges {
      assert hs2[e].tail == hs1[e].tail;
    }
  }

  lemma SameButFacesKeepsKeys(hs1: seq<HalfEdge>, hs2: seq<HalfEdge>)
    requires SameButFaces(hs1, hs2) && EdgeKeysDistinct(hs1)
    ensures EdgeKeysDistinct(hs2)
  {
    forall i, j | 0 <= i < j < |hs2| ensures EdgesDiffer(hs2, i, j) {
      assert EdgesDiffer(hs1, i, j);
    }
  }

  lemma SameButFacesKeepsLinked(vs: seq<Vertex>, hs1: seq<HalfEdge>, hs2: seq<HalfEdge>)
    requires SameButFaces(hs1, hs2) && Linked(vs, hs1)
    ensures Linked(vs, hs2)
  {
    forall v, k | 0 <= v < |vs| && 0 <= k < |vs[v].edges|
      ensures LinkedAt(vs, hs2, v, k)
    {
      assert LinkedAt(vs, hs1, v, k);
    }
  }

  /** Two vertex arenas with the same coordinates and edge lists. */
  ghost predicate SameVertexShape(vs1: seq<Vertex>, vs2: seq<Vertex>)
  {
    |vs1| == |vs2| && forall v :: 0 <= v < |vs1| ==> vs2[v].x == vs1[v].x && vs2[v].y == vs1[v].y && vs2[v].edges == vs1[v].edges
  }

  lemma SameVertexShapeWf(vs1: seq<Vertex>, vs2: seq<Vertex>, hs: seq<HalfEdge>, fs: seq<Face>)
    requires Wf(vs1, hs, fs) && SameVertexShape(vs1, vs2)
    ensures Wf(vs2, hs, fs)
  {
    forall i, j | 0 <= i < j < |vs2| ensures VerticesDiffer(vs2, i, j) {
      assert VerticesDiffer(vs1, i, j);
    }
    assert forall e :: 0 <= e < |hs| ==> RefsOk(hs[e], |vs2|, |hs|, |fs|) by {
      forall e | 0 <= e < |hs| ensures RefsOk(hs[e], |vs2|, |hs|, |fs|) {
        assert RefsOk(hs[e], |vs1|, |hs|, |fs|);
      }
    }
    assert EdgeListsExact(vs2, hs) by {
      forall e | 0 <= e < |hs| && hs[e].tail < |vs2| ensures e in vs2[hs[e].tail].edges {
        assert e in vs1[hs[e].tail].edges;
      }
    }
  }

  /** Two half-edge arenas with the same keys. */
  ghost predicate SameEdgeKeys(hs1: seq<HalfEdge>, hs2: seq<HalfEdge>)
  {
    |hs1| == |hs2| && forall e :: 0 <= e < |hs1| ==> hs2[e].tail == hs1[e].tail && hs2[e].head == hs1[e].head
  }

  /** Changing the links, faces or flags of half-edges to values in range keeps the arena well formed. */
  lemma SameEdgeKeysWf(vs: seq<Vertex>, hs1: seq<HalfEdge>, hs2: seq<HalfEdge>, fs: seq<Face>)
    requires Wf(vs, hs1, fs) && SameEdgeKeys(hs1, hs2)
    requires forall e :: 0 <= e < |hs2| ==> RefsOk(hs2[e], |vs|, |hs2|, |fs|)
    ensures Wf(vs, hs2, fs)
  {
    assert EdgeKeysDistinct(hs2) by {
      forall i, j | 0 <= i < j < |hs2| ensures EdgesDiffer(hs2, i, j) {
        assert EdgesDiffer(hs1, i, j);
      }
    }
    assert forall f :: 0 <= f < |fs| ==> FaceOk(fs[f], |hs2|, |fs|) by {
      forall f | 0 <= f < |fs| ensures FaceOk(fs[f], |hs2|, |fs|) {
        assert FaceOk(fs[f], |hs1|, |fs|);
      }
    }
    assert EdgeListsExact(vs, hs2) by {
      forall v, k | 0 <= v < |vs| && 0 <= k < |vs[v].edges|
        ensures vs[v].edges[k] < |hs2| && hs2[vs[v].edges[k]].tail == v
      {
        assert vs[v].edges[k] < |hs1| && hs1[vs[v].edges[k]].tail == v;
      }
      forall e | 0 <= e < |hs2| && hs2[e].tail < |vs| ensures e in vs[hs2[e].tail].edges {
        assert e in vs[hs1[e].tail].edges;
      }
    }
  }

  /** The arrays after appending a new half-edge from `tail` to `head` and listing it at its tail. */
  lemma AppendEdgeWf(vs: seq<Vertex>, hs: seq<HalfEdge>, fs: seq<Face>, tail: nat, head: nat)
    requires Wf(vs, hs, fs) && tail < |vs| && head < |vs|
    requires forall i :: 0 <= i < |hs| ==> !(hs[i].tail == tail && hs[i].head == head)
    ensures var e := |hs|;
      Wf(vs[tail := vs[tail].(edges := vs[tail].edges + [e])], hs + [NewHalfEdge(tail, head)], fs)
  {
    var e := |hs|;
    var vs' := vs[tail := vs[tail].(edges := vs[tail].edges + [e])];
    var hs' := hs + [NewHalfEdge(tail, head)];
    assert forall i :: 0 <= i < |hs| ==> hs'[i] == hs[i];
    assert EdgeKeysDistinct(hs') by {
      forall i, j | 0 <= i < j < |hs'| ensures EdgesDiffer(hs', i, j) {
        if j < |hs| {
          assert EdgesDiffer(hs, i, j);
        }
      }
    }
    assert VertexKeysDistinct(vs') by {
      forall i, j | 0 <= i < j < |vs'| ensures VerticesDiffer(vs', i, j) {
        assert VerticesDiffer(vs, i, j);
      }
    }
    assert forall i :: 0 <= i < |hs'| ==> RefsOk(hs'[i], |vs'|, |hs'|, |fs|) by {
      forall i | 0 <= i < |hs'| ensures RefsOk(hs'[i], |vs'|, |hs'|, |fs|) {
        if i < |hs| {
          assert RefsOk(hs[i], |vs|, |hs|, |fs|);
        }
      }
    }
    assert forall f :: 0 <= f < |fs| ==> FaceOk(fs[f], |hs'|, |fs|) by {
      forall f | 0 <= f < |fs| ensures FaceOk(fs[f], |hs'|, |fs|) {
        assert FaceOk(fs[f], |hs|, |fs|);
      }
    }
    assert EdgeListsExact(vs', hs') by {
      forall v, k | 0 <= v < |vs'| && 0 <= k < |vs'[v].edges|
        ensures vs'[v].edges[k] < |hs'| && hs'[vs'[v].edges[k]].tail == v
      {
        if v != tail || k < |vs[tail].edges| {
          assert vs'[v].edges[k] == vs[v].edges[k];
          assert vs[v].edges[k] < |hs| && hs[vs[v].edges[k]].tail == v;
        }
      }
      forall v | 0 <= v < |vs'| ensures Distinct(vs'[v].edges) {
        if v == tail {
          var es := vs[tail].edges;
          assert Distinct(es);
          assert forall k :: 0 <= k < |es| ==> es[k] < |hs|;
          forall i, j | 0 <= i < j < |es + [e]| ensures ElementsDiffer(es + [e], i, j) {
            if j < |es| {
              assert ElementsDiffer(es, i, j);
            }
          }
        } else {
          assert Distinct(vs[v].edges);
        }
      }
      forall i | 0 <= i < |hs'| && hs'[i].tail < |vs'| ensures i in vs'[hs'[i].tail].edges {
        if i < |hs| {
          assert i in vs[hs[i].tail].edges;
        } else {
          assert vs'[tail].edges == vs[tail].edges + [e];
        }
      }
    }
  }

  // ----- lookups by key -----

  /** The vertex with these coordinates: `vertices.get(Vertex.getKey(x, y))`. */
  function FindVertexIn(vs: seq<Vertex>, x: real, y: real): (r: Option<nat>)
    ensures r.None? <==> forall i :: 0 <= i < |vs| ==> !(vs[i].x == x && vs[i].y == y)
    ensures r.Some? ==> r.value < |vs| && vs[r.value].x == x && vs[r.value].y == y
  {
    if |vs| == 0 then None
    else if vs[0].x == x && vs[0].y == y then Some(0)
    else
      var r := FindVertexIn(vs[1..], x, y);
      assert forall i :: 1 <= i < |vs| ==> vs[1..][i - 1] == vs[i];
      if r.None? then None else Some(r.value + 1)
  }

  /** Keys are unique, so the vertex found is the only one with those coordinates. */
  lemma FindVertexUnique(vs: seq<Vertex>, i: nat)
    requires VertexKeysDistinct(vs) && i < |vs|
    ensures FindVertexIn(vs, vs[i].x, vs[i].y) == Some(i)
  {
    var r := FindVertexIn(vs, vs[i].x, vs[i].y);
    VertexKeyDetermines(vs, r.value, i);
  }

  /** Keys are unique: two vertices with the same coordinates are the same. */
  lemma VertexKeyDetermines(vs: seq<Vertex>, a: nat, b: nat)
    requires VertexKeysDistinct(vs) && a < |vs| && b < |vs|
    requires vs[a].x == vs[b].x && vs[a].y == vs[b].y
    ensures a == b
  {
    assert a < b ==> VerticesDiffer(vs, a, b);
    assert b < a ==> VerticesDiffer(vs, b, a);
  }

  /** The half-edge with this key: `halfEdges.get(HalfEdge.getKey(tail, head))`. */
  function FindHalfEdgeIn(hs: seq<HalfEdge>, tail: nat, head: nat): (r: Option<nat>)
    ensures r.None? <==> forall i :: 0 <= i < |hs| ==> !(hs[i].tail == tail && hs[i].head == head)
    ensures r.Some? ==> r.value < |hs| && hs[r.value].tail == tail && hs[r.value].head == head
  {
    if |hs| == 0 then None
    else if hs[0].tail == tail && hs[0].head == head then Some(0)
    else
      var r := FindHalfEdgeIn(hs[1..], tail, head);
      assert forall i :: 1 <= i < |hs| ==> hs[1..][i - 1] == hs[i];
      if r.None? then None else Some(r.value + 1)
  }

  lemma FindHalfEdgeAppended(hs: seq<HalfEdge>, tail: nat, head: nat)
    requires FindHalfEdgeIn(hs, tail, head).None?
    ensures FindHalfEdgeIn(hs + [NewHalfEdge(tail, head)], tail, head) == Some(|hs|)
  {
    var hs' := hs + [NewHalfEdge(tail, head)];
    var r := FindHalfEdgeIn(hs', tail, head);
    assert hs'[|hs|].tail == tail && hs'[|hs|].head == head;
    assert forall i :: 0 <= i < |hs| ==> hs'[i] == hs[i];
  }

  // ----- pure queries -----

  /** The faces that have a representative edge, in order. */
  function FacesWithEdge(fs: seq<Face>): (r: seq<nat>)
    ensures forall k :: 0 <= k < |r| ==> r[k] < |fs| && fs[r[k]].edge.Some?
    ensures forall i :: 0 <= i < |fs| && fs[i].edge.Some? ==> i in r
    ensures forall k, l :: 0 <= k < l < |r| ==> r[k] < r[l]
  {
    if |fs| == 0 then []
    else
      var front := FacesWithEdge(fs[..|fs| - 1]);
      assert forall i :: 0 <= i < |fs| - 1 ==> fs[..|fs| - 1][i] == fs[i];
      if fs[|fs| - 1].edge.Some? then front + [|fs| - 1] else front
  }

  /** The first face without a representative edge. */
  function FirstFaceWithoutEdge(fs: seq<Face>): (r: Option<nat>)
    ensures r.None? <==> forall i :: 0 <= i < |fs| ==> fs[i].edge.Some?
    ensures r.Some? ==> r.value < |fs| && fs[r.value].edge.None? && forall i :: 0 <= i < r.value ==> fs[i].edge.Some?
  {
    if |fs| == 0 then None
    else if fs[0].edge.None? then Some(0)
    else
      var r := FirstFaceWithoutEdge(fs[1..]);
      assert forall i :: 1 <= i < |fs| ==> fs[1..][i - 1] == fs[i];
      if r.None? then None else Some(r.value + 1)
  }

  /**
   * Dcel.getSimpleEdges: walking the edges in order, an edge with a twin is kept unless its twin
   * was kept already.
   */
  function Simple(hs: seq<HalfEdge>, edges: seq<nat>): (r: seq<nat>)
    requires forall k :: 0 <= k < |edges| ==> edges[k] < |hs|
    ensures forall k :: 0 <= k < |r| ==> r[k] < |hs|
    ensures forall x :: x in r ==> x in edges && hs[x].twin.Some?
  {
    if |edges| == 0 then []
    else
      var front := Simple(hs, edges[..|edges| - 1]);
      var e := edges[|edges| - 1];
      if hs[e].twin.Some? && hs[e].twin.value !in front then front + [e] else front
  }

  /** `a` is a subsequence of `b`: the same elements in the same order, some of `b` left out. */
  ghost predicate IsSubsequence(a: seq<nat>, b: seq<nat>)
    decreases |b|
  {
    if |a| == 0 then true
    else if |b| == 0 then false
    else (a[|a| - 1] == b[|b| - 1] && IsSubsequence(a[..|a| - 1], b[..|b| - 1])) || IsSubsequence(a, b[..|b| - 1])
  }

  lemma {:induction false} SimpleIsSubsequence(hs: seq<HalfEdge>, edges: seq<nat>)
    requires forall k :: 0 <= k < |edges| ==> edges[k] < |hs|
    ensures IsSubsequence(Simple(hs, edges), edges)
  {
    if |edges| > 0 {
      var n := |edges| - 1;
      var front := Simple(hs, edges[..n]);
      SimpleIsSubsequence(hs, edges[..n]);
      var r := Simple(hs, edges);
      if r == front + [edges[n]] {
        assert r[..|r| - 1] == front;
      } else {
        if |r| > 0 {
          assert IsSubsequence(r, edges[..n]);
        }
      }
    }
  }

  /** No edge of `r` is the twin of an edge before it. */
  ghost predicate NoLaterTwin(hs: seq<HalfEdge>, r: seq<nat>)
  {
    forall i, j :: 0 <= i < j < |r| && r[j] < |hs| ==> hs[r[j]].twin != Some(r[i])
  }

  /** No kept edge is the twin of an edge kept before it. */
  lemma {:induction false} SimpleHasNoLaterTwin(hs: seq<HalfEdge>, edges: seq<nat>)
    requires forall k :: 0 <= k < |edges| ==> edges[k] < |hs|
    ensures NoLaterTwin(hs, Simple(hs, edges))
  {
    if |edges| > 0 {
      var n := |edges| - 1;
      SimpleHasNoLaterTwin(hs, edges[..n]);
      var front := Simple(hs, edges[..n]);
      var r := Simple(hs, edges);
      if r != front {
        assert r == front + [edges[n]];
        assert hs[edges[n]].twin.Some? && hs[edges[n]].twin.value !in front;
        forall i, j | 0 <= i < j < |r|
          ensures hs[r[j]].twin != Some(r[i])
        {
          assert r[i] == front[i] && front[i] in front;
          if j < |r| - 1 {
            assert r[j] == front[j];
          }
        }
      }
    }
  }

  /** With keyed twins, no two different kept edges are twins of each other. */
  lemma SimpleIsTwinFree(hs: seq<HalfEdge>, edges: seq<nat>)
    requires forall k :: 0 <= k < |edges| ==> edges[k] < |hs|
    requires EdgeKeysDistinct(hs) && Paired(hs) && AllTwinned(hs)
    ensures var r := Simple(hs, edges);
      forall i, j :: 0 <= i < |r| && 0 <= j < |r| && i != j ==> hs[r[i]].twin != Some(r[j])
  {
    SimpleHasNoLaterTwin(hs, edges);
    var r := Simple(hs, edges);
    forall i, j | 0 <= i < |r| && 0 <= j < |r| && i != j
      ensures hs[r[i]].twin != Some(r[j])
    {
      TwinInvolution(hs, r[i]);
      if i < j {
        assert hs[r[j]].twin != Some(r[i]);
      } else {
        assert r[i] < |hs|;
        assert hs[r[i]].twin != Some(r[j]);
      }
    }
  }

  /** Every edge with a twin is kept itself or through its twin. */
  lemma {:induction false} SimpleCoversPairs(hs: seq<HalfEdge>, edges: seq<nat>)
    requires forall k :: 0 <= k < |edges| ==> edges[k] < |hs|
    ensures var r := Simple(hs, edges);
      forall k :: 0 <= k < |edges| && hs[edges[k]].twin.Some? ==> edges[k] in r || hs[edges[k]].twin.value in r
  {
    if |edges| > 0 {
      var n := |edges| - 1;
      SimpleCoversPairs(hs, edges[..n]);
      var front := Simple(hs, edges[..n]);
      var r := Simple(hs, edges);
      assert forall x :: x in front ==> x in r;
      forall k | 0 <= k < |edges| && hs[edges[k]].twin.Some?
        ensures edges[k] in r || hs[edges[k]].twin.value in r
      {
        if k < n {
          assert edges[..n][k] == edges[k];
        }
      }
    }
  }

  // ----- bounding box -----

  datatype ExtReal = NegInfinity | Finite(value: real) | PosInfinity

  /** `a > b` for JavaScript numbers, with the infinities. */
  predicate Above(a: ExtReal, b: real)
  {
    a.PosInfinity? || (a.Finite? && a.value > b)
  }

  /** `a < b` for JavaScript numbers, with the infinities. */
  predicate Below(a: ExtReal, b: real)
  {
    a.NegInfinity? || (a.Finite? && a.value < b)
  }

  /** [minX, minY, maxX, maxY] of the vertices; all four infinite, as initialised, when there are none. */
  ghost predicate IsBbox(vs: seq<Vertex>, bbox: seq<ExtReal>)
  {
    && |bbox| == 4
    && (|vs| == 0 ==> bbox == [PosInfinity, PosInfinity, NegInfinity, NegInfinity])
    && (|vs| > 0 ==>
         && bbox[0].Finite? && bbox[1].Finite? && bbox[2].Finite? && bbox[3].Finite?
         && (forall i :: 0 <= i < |vs| ==>
               bbox[0].value <= vs[i].x && bbox[1].value <= vs[i].y && vs[i].x <= bbox[2].value && vs[i].y <= bbox[3].value)
         && (exists i :: 0 <= i < |vs| && vs[i].x == bbox[0].value)
         && (exists i :: 0 <= i < |vs| && vs[i].y == bbox[1].value)
         && (exists i :: 0 <= i < |vs| && vs[i].x == bbox[2].value)
         && (exists i :: 0 <= i < |vs| && vs[i].y == bbox[3].value))
  }

  /** The bounding box is determined by the vertices. */
  lemma BboxUnique(vs: seq<Vertex>, b1: seq<ExtReal>, b2: seq<ExtReal>)
    requires IsBbox(vs, b1) && IsBbox(vs, b2)
    ensures b1 == b2
  {
    if |vs| > 0 {
      var i0 :| 0 <= i0 < |vs| && vs[i0].x == b1[0].value;
      var j0 :| 0 <= j0 < |vs| && vs[j0].x == b2[0].value;
      var i1 :| 0 <= i1 < |vs| && vs[i1].y == b1[1].value;
      var j1 :| 0 <= j1 < |vs| && vs[j1].y == b2[1].value;
      var i2 :| 0 <= i2 < |vs| && vs[i2].x == b1[2].value;
      var j2 :| 0 <= j2 < |vs| && vs[j2].x == b2[2].value;
      var i3 :| 0 <= i3 < |vs| && vs[i3].y == b1[3].value;
      var j3 :| 0 <= j3 < |vs| && vs[j3].y == b2[3].value;
      assert b1[0] == b2[0] && b1[1] == b2[1] && b1[2] == b2[2] && b1[3] == b2[3];
    }
  }

  /** The 200 × 200 square has the bounding box [0, 0, 200, 200]. */
  lemma SquareBbox(vs: seq<Vertex>, bbox: seq<ExtReal>)
    requires |vs| == 4
    requires vs[0].x == 0.0 && vs[0].y == 0.0 && vs[1].x == 200.0 && vs[1].y == 0.0
    requires vs[2].x == 200.0 && vs[2].y == 200.0 && vs[3].x == 0.0 && vs[3].y == 200.0
    requires IsBbox(vs, bbox)
    ensures bbox == [Finite(0.0), Finite(0.0), Finite(200.0), Finite(200.0)]
  {
    var b := [Finite(0.0), Finite(0.0), Finite(200.0), Finite(200.0)];
    assert vs[0].x == b[0].value && vs[0].y == b[1].value && vs[2].x == b[2].value && vs[2].y == b[3].value;
    assert IsBbox(vs, b);
    BboxUnique(vs, bbox, b);
  }

  // ----- classification and configurations -----

  ghost predicate EndpointsInRange(vs: seq<Vertex>, hs: seq<HalfEdge>, edges: seq<nat>)
  {
    forall k :: 0 <= k < |edges| ==> edges[k] < |hs| && hs[edges[k]].tail < |vs| && hs[edges[k]].head < |vs|
  }

  /** The simple edges whose tail and head are both significant: those classifyVertices subdivides. */
  function DoublySignificant(vs: seq<Vertex>, hs: seq<HalfEdge>, edges: seq<nat>): (r: seq<nat>)
    requires EndpointsInRange(vs, hs, edges)
    ensures forall x :: x in r <==> x in edges && vs[hs[x].tail].significant && vs[hs[x].head].significant
  {
    if |edges| == 0 then []
    else
      var front := DoublySignificant(vs, hs, edges[..|edges| - 1]);
      var e := edges[|edges| - 1];
      assert edges == edges[..|edges| - 1] + [e];
      if vs[hs[e].tail].significant && vs[hs[e].head].significant then front + [e] else front
  }

  /** The loop that picks the edges DoublySignificant describes. */
  method FilterDoublySignificant(vs: seq<Vertex>, hs: seq<HalfEdge>, edges: seq<nat>) returns (split: seq<nat>)
    requires EndpointsInRange(vs, hs, edges)
    ensures split == DoublySignificant(vs, hs, edges)
  {
    split := [];
    var j := 0;
    while j < |edges|
      invariant 0 <= j <= |edges|
      invariant split == DoublySignificant(vs, hs, edges[..j])
    {
      var edge := edges[j];
      assert edges[..j + 1][..j] == edges[..j];
      if vs[hs[edge].tail].significant && vs[hs[edge].head].significant {
        split := split + [edge];
      }
      j := j + 1;
    }
    assert edges[..j] == edges;
  }

  /** The significance of an edge's endpoints. */
  datatype EndpointSignificance = EndpointSignificance(tail: bool, head: bool)

  /**
   * What subdividing an edge with two significant endpoints leaves: two edges meeting at the new,
   * insignificant vertex.
   */
  function AfterSubdivision(edges: seq<EndpointSignificance>): (r: seq<EndpointSignificance>)
    ensures forall k :: 0 <= k < |r| ==> !(r[k].tail && r[k].head)
    ensures |r| == |edges| + |DoublySignificantOnes(edges)|
  {
    if |edges| == 0 then []
    else
      var e := edges[|edges| - 1];
      var front := AfterSubdivision(edges[..|edges| - 1]);
      if e.tail && e.head then front + [EndpointSignificance(true, false), EndpointSignificance(false, true)]
      else front + [e]
  }

  function DoublySignificantOnes(edges: seq<EndpointSignificance>): seq<nat>
  {
    if |edges| == 0 then []
    else
      var front := DoublySignificantOnes(edges[..|edges| - 1]);
      if edges[|edges| - 1].tail && edges[|edges| - 1].head then front + [|edges| - 1] else front
  }

  /** createConfigurations' gate: both endpoints have at most three outgoing edges. */
  predicate ConfigurationGate(vs: seq<Vertex>, h: HalfEdge)
    requires h.tail < |vs| && h.head < |vs|
  {
    |vs[h.tail].edges| <= 3 && |vs[h.head].edges| <= 3
  }

  /**
   * One step of replaceEdgesWithStaircases: the points strictly between the first and the last
   * staircase point (`slice(1, -1)`).
   */
  function InnerStepPoints(points: seq<Point>): (r: seq<Point>)
    ensures |points| >= 2 ==> r == points[1..|points| - 1]
    ensures |points| < 2 ==> r == []
  {
    if |points| < 2 then [] else points[1..|points| - 1]
  }

  /**
   * The subdivision loop of replaceEdgesWithStaircases on one edge: subdividing at each step point
   * in turn and continuing with the second half leaves a chain from the tail through every step
   * point to the head.
   */
  method SubdivideAlong(edge: LineSegment, stepPoints: seq<Point>) returns (chain: seq<LineSegment>)
    ensures |chain| == |stepPoints| + 1
    ensures chain[0].endPoint1 == edge.endPoint1 && chain[|chain| - 1].endPoint2 == edge.endPoint2
    ensures forall i :: 0 <= i < |stepPoints| ==> chain[i].endPoint2 == stepPoints[i] && chain[i + 1].endPoint1 == stepPoints[i]
  {
    chain := [];
    var edgeToSubdivide := edge;
    var i := 0;
    while i < |stepPoints|
      invariant 0 <= i <= |stepPoints|
      invariant |chain| == i
      invariant edgeToSubdivide.endPoint2 == edge.endPoint2
      invariant i == 0 ==> edgeToSubdivide.endPoint1 == edge.endPoint1
      invariant i > 0 ==> chain[0].endPoint1 == edge.endPoint1 && edgeToSubdivide.endPoint1 == stepPoints[i - 1]
      invariant forall k :: 0 <= k < i ==> chain[k].endPoint2 == stepPoints[k]
      invariant forall k :: 0 < k < i ==> chain[k].endPoint1 == stepPoints[k - 1]
    {
      var p := stepPoints[i];
      var dividedEdge := LineSegment(edgeToSubdivide.endPoint1, p);
      chain := chain + [dividedEdge];
      edgeToSubdivide := LineSegment(p, edgeToSubdivide.endPoint2);
      i := i + 1;
    }
    chain := chain + [edgeToSubdivide];
  }

  class Dcel {
    var vertices: seq<Vertex>
    var halfEdges: seq<HalfEdge>
    var faces: seq<Face>

    ghost predicate Valid()
      reads this
    {
      Wf(vertices, halfEdges, faces)
    }

    /** Dcel.constructor: an empty subdivision. */
    constructor()
      ensures Valid()
      ensures vertices == [] && halfEdges == [] && faces == []
    {
      vertices := [];
      halfEdges := [];
      faces := [];
    }

    /** Dcel.findVertex. */
    function FindVertex(x: real, y: real): (r: Option<nat>)
      reads this
      ensures r.None? <==> forall i :: 0 <= i < |vertices| ==> !(vertices[i].x == x && vertices[i].y == y)
      ensures r.Some? ==> r.value < |vertices| && vertices[r.value].x == x && vertices[r.value].y == y
    {
      FindVertexIn(vertices, x, y)
    }

    function FindHalfEdge(tail: nat, head: nat): (r: Option<nat>)
      reads this
      ensures r.None? <==> forall i :: 0 <= i < |halfEdges| ==> !(halfEdges[i].tail == tail && halfEdges[i].head == head)
      ensures r.Some? ==> r.value < |halfEdges| && halfEdges[r.value].tail == tail && halfEdges[r.value].head == head
    {
      FindHalfEdgeIn(halfEdges, tail, head)
    }

    /** Dcel.makeVertex: the vertex with these coordinates, created and added only if there is none. */
    method MakeVertex(x: real, y: real) returns (v: nat)
      requires Valid()
      modifies this`vertices
      ensures Valid()
      ensures old(FindVertex(x, y)).Some? ==> v == old(FindVertex(x, y)).value && vertices == old(vertices)
      ensures old(FindVertex(x, y)).None? ==> v == old(|vertices|) && vertices == old(vertices) + [Vertex(x, y, [], false)]
      ensures FindVertex(x, y) == Some(v)
    {
      var existingVertex := FindVertex(x, y);
      if existingVertex.Some? {
        return existingVertex.value;
      }
      v := |vertices|;
      ghost var vs := vertices;
      vertices := vertices + [Vertex(x, y, [], false)];
      assert forall i :: 0 <= i < |vs| ==> vertices[i] == vs[i];
      assert EdgeListsExact(vertices, halfEdges);
      forall i, j | 0 <= i < j < |vertices| ensures VerticesDiffer(vertices, i, j) {
        if j < |vs| {
          assert VerticesDiffer(vs, i, j);
        }
      }
      FindVertexUnique(vertices, v);
    }

    /**
     * Dcel.makeHalfEdge: the half-edge from `tail` to `head`, created and appended to the tail's
     * edges only if there is none.
     */
    method MakeHalfEdge(tail: nat, head: nat) returns (e: nat)
      requires Valid() && tail < |vertices| && head < |vertices|
      modifies this`vertices, this`halfEdges
      ensures Valid()
      ensures old(FindHalfEdge(tail, head)).Some? ==>
        e == old(FindHalfEdge(tail, head)).value && vertices == old(vertices) && halfEdges == old(halfEdges)
      ensures old(FindHalfEdge(tail, head)).None? ==>
        && e == old(|halfEdges|)
        && halfEdges == old(halfEdges) + [NewHalfEdge(tail, head)]
        && vertices == old(vertices)[tail := old(vertices)[tail].(edges := old(vertices)[tail].edges + [e])]
      ensures FindHalfEdge(tail, head) == Some(e)
      ensures Paired(old(halfEdges)) ==> Paired(halfEdges)
      ensures old(halfEdges) <= halfEdges && |halfEdges| <= |old(halfEdges)| + 1
      ensures |halfEdges| > |old(halfEdges)| ==> e == |old(halfEdges)|
      ensures |vertices| == |old(vertices)|
      ensures forall v :: 0 <= v < |vertices| ==> vertices[v].x == old(vertices[v].x) && vertices[v].y == old(vertices[v].y)
    {
      var existingHalfEdge := FindHalfEdge(tail, head);
      if existingHalfEdge.Some? {
        return existingHalfEdge.value;
      }
      e := |halfEdges|;
      AppendEdgeWf(vertices, halfEdges, faces, tail, head);
      halfEdges := halfEdges + [NewHalfEdge(tail, head)];
      // `tail.edges.sort()` compares the edges as strings, which are all alike, so the stable sort keeps the order
      vertices := vertices[tail := vertices[tail].(edges := vertices[tail].edges + [e])];
      FindHalfEdgeAppended(old(halfEdges), tail, head);
    }

    /** Dcel.makeFace: a new face, appended last. */
    method MakeFace() returns (f: nat)
      requires Valid()
      modifies this`faces
      ensures Valid()
      ensures faces == old(faces) + [NewFace()] && f == old(|faces|)
    {
      f := |faces|;
      ghost var fs := faces;
      faces := faces + [NewFace()];
      assert forall e :: 0 <= e < |halfEdges| ==> RefsOk(halfEdges[e], |vertices|, |halfEdges|, |faces|) by {
        forall e | 0 <= e < |halfEdges| ensures RefsOk(halfEdges[e], |vertices|, |halfEdges|, |faces|) {
          assert RefsOk(halfEdges[e], |vertices|, |halfEdges|, |fs|);
        }
      }
      assert forall g :: 0 <= g < |faces| ==> FaceOk(faces[g], |halfEdges|, |faces|) by {
        forall g | 0 <= g < |faces| ensures FaceOk(faces[g], |halfEdges|, |faces|) {
          if g < |fs| {
            assert FaceOk(fs[g], |halfEdges|, |fs|);
          }
        }
      }
    }

    /** Dcel.getBoundedFaces: the faces with a representative edge, in order. */
    function GetBoundedFaces(): (r: seq<nat>)
      reads this
      ensures forall i :: i in r <==> 0 <= i < |faces| && faces[i].edge.Some?
      ensures forall k, l :: 0 <= k < l < |r| ==> r[k] < r[l]
    {
      FacesWithEdge(faces)
    }

    /** Dcel.getUnboundedFace: the first face without a representative edge. */
    function GetUnboundedFace(): (r: Option<nat>)
      reads this
      ensures r.None? <==> forall i :: 0 <= i < |faces| ==> faces[i].edge.Some?
      ensures r.Some? ==> r.value < |faces| && faces[r.value].edge.None? && r.value !in GetBoundedFaces()
      ensures r.Some? ==> forall i :: 0 <= i < r.value ==> i in GetBoundedFaces()
    {
      FirstFaceWithoutEdge(faces)
    }

    /** All half-edges, in insertion order (`getHalfEdges()` without filters). */
    function EdgeIds(): (r: seq<nat>)
      reads this
      ensures |r| == |halfEdges| && forall k :: 0 <= k < |r| ==> r[k] == k
    {
      seq(|halfEdges|, k => k)
    }

    /** Dcel.getSimpleEdges. */
    method GetSimpleEdges(edges: seq<nat>) returns (simpleEdges: seq<nat>)
      requires forall k :: 0 <= k < |edges| ==> edges[k] < |halfEdges|
      ensures simpleEdges == Simple(halfEdges, edges)
    {
      simpleEdges := [];
      var i := 0;
      while i < |edges|
        invariant 0 <= i <= |edges|
        invariant simpleEdges == Simple(halfEdges, edges[..i])
      {
        var e := edges[i];
        assert edges[..i + 1][..i] == edges[..i];
        if halfEdges[e].twin.Some? {
          if halfEdges[e].twin.value !in simpleEdges {
            simpleEdges := simpleEdges + [e];
          }
        }
        i := i + 1;
      }
      assert edges[..i] == edges;
    }

    /** Dcel.getBbox: [minX, minY, maxX, maxY] over all vertices. */
    method GetBbox() returns (bbox: seq<ExtReal>)
      ensures IsBbox(vertices, bbox)
    {
      bbox := [PosInfinity, PosInfinity, NegInfinity, NegInfinity];
      ghost var w0, w1, w2, w3 := 0, 0, 0, 0;
      var i := 0;
      while i < |vertices|
        invariant 0 <= i <= |vertices|
        invariant |bbox| == 4
        invariant i == 0 ==> bbox == [PosInfinity, PosInfinity, NegInfinity, NegInfinity]
        invariant i > 0 ==> bbox[0].Finite? && bbox[1].Finite? && bbox[2].Finite? && bbox[3].Finite?
        invariant i > 0 ==> w0 < i && w1 < i && w2 < i && w3 < i
        invariant i > 0 ==> vertices[w0].x == bbox[0].value && vertices[w1].y == bbox[1].value
        invariant i > 0 ==> vertices[w2].x == bbox[2].value && vertices[w3].y == bbox[3].value
        invariant forall k :: 0 <= k < i ==>
          bbox[0].value <= vertices[k].x && bbox[1].value <= vertices[k].y && vertices[k].x <= bbox[2].value && vertices[k].y <= bbox[3].value
      {
        var p := vertices[i];
        if Above(bbox[0], p.x) {
          bbox := bbox[0 := Finite(p.x)];
          w0 := i;
        }
        if Above(bbox[1], p.y) {
          bbox := bbox[1 := Finite(p.y)];
          w1 := i;
        }
        if Below(bbox[2], p.x) {
          bbox := bbox[2 := Finite(p.x)];
          w2 := i;
        }
        if Below(bbox[3], p.y) {
          bbox := bbox[3 := Finite(p.y)];
          w3 := i;
        }
        i := i + 1;
      }
    }

    /**
     * Dcel.classifyVertices: marks every vertex significant or not, then returns the simple edges
     * with two significant endpoints, which it subdivides.
     */
    method ClassifyVertices(isSignificant: Vertex -> bool) returns (split: seq<nat>)
      requires Valid()
      modifies this`vertices
      ensures Valid()
      ensures |vertices| == |old(vertices)|
      ensures forall v :: 0 <= v < |vertices| ==> vertices[v] == old(vertices[v]).(significant := isSignificant(old(vertices[v])))
      ensures forall e :: e in split <==>
        e in Simple(halfEdges, EdgeIds()) && vertices[halfEdges[e].tail].significant && vertices[halfEdges[e].head].significant
    {
      MarkSignificance(isSignificant);
      split := DoublySignificantSimpleEdges();
    }

    /** The first loop of classifyVertices: `v.isSignificant()` for every vertex. */
    method MarkSignificance(isSignificant: Vertex -> bool)
      requires Valid()
      modifies this`vertices
      ensures Valid()
      ensures |vertices| == |old(vertices)|
      ensures forall v :: 0 <= v < |vertices| ==> vertices[v] == old(vertices[v]).(significant := isSignificant(old(vertices[v])))
    {
      ghost var vs := vertices;
      var i := 0;
      while i < |vertices|
        invariant 0 <= i <= |vertices| && |vertices| == |vs|
        invariant forall v :: 0 <= v < i ==> vertices[v] == vs[v].(significant := isSignificant(vs[v]))
        invariant forall v :: i <= v < |vertices| ==> vertices[v] == vs[v]
      {
        vertices := vertices[i := vertices[i].(significant := isSignificant(vertices[i]))];
        i := i + 1;
      }
      assert SameVertexShape(vs, vertices);
      SameVertexShapeWf(vs, vertices, halfEdges, faces);
    }

    /** The second loop of classifyVertices: the simple edges whose endpoints are both significant. */
    method DoublySignificantSimpleEdges() returns (split: seq<nat>)
      requires Valid()
      ensures forall e :: e in split <==>
        e in Simple(halfEdges, EdgeIds()) && vertices[halfEdges[e].tail].significant && vertices[halfEdges[e].head].significant
    {
      var simple := GetSimpleEdges(EdgeIds());
      assert EndpointsInRange(vertices, halfEdges, simple) by {
        forall k | 0 <= k < |simple|
          ensures simple[k] < |halfEdges| && halfEdges[simple[k]].tail < |vertices| && halfEdges[simple[k]].head < |vertices|
        {
          assert RefsOk(halfEdges[simple[k]], |vertices|, |halfEdges|, |faces|);
        }
      }
      split := FilterDoublySignificant(vertices, halfEdges, simple);
    }

    /** Dcel.createConfigurations: a configuration for every edge whose endpoints have degree three or less. */
    method CreateConfigurations()
      requires Valid()
      modifies this`halfEdges
      ensures Valid()
      ensures |halfEdges| == |old(halfEdges)|
      ensures forall e :: 0 <= e < |halfEdges| ==>
        halfEdges[e] == old(halfEdges[e]).(configured := old(halfEdges[e]).configured || ConfigurationGate(vertices, old(halfEdges[e])))
    {
      ghost var hs := halfEdges;
      var i := 0;
      while i < |halfEdges|
        invariant 0 <= i <= |halfEdges| && |halfEdges| == |hs|
        invariant forall e :: 0 <= e < |hs| ==> RefsOk(hs[e], |vertices|, |hs|, |faces|)
        invariant forall e :: 0 <= e < i ==> halfEdges[e] == hs[e].(configured := hs[e].configured || ConfigurationGate(vertices, hs[e]))
        invariant forall e :: i <= e < |halfEdges| ==> halfEdges[e] == hs[e]
      {
        var edge := halfEdges[i];
        if |vertices[edge.tail].edges| <= 3 && |vertices[edge.head].edges| <= 3 {
          halfEdges := halfEdges[i := edge.(configured := true)];
        }
        i := i + 1;
      }
      assert forall e :: 0 <= e < |halfEdges| ==> halfEdges[e] == hs[e].(configured := halfEdges[e].configured);
      assert forall e :: 0 <= e < |halfEdges| ==> RefsOk(halfEdges[e], |vertices|, |halfEdges|, |faces|) by {
        forall e | 0 <= e < |halfEdges| ensures RefsOk(halfEdges[e], |vertices|, |halfEdges|, |faces|) {
          assert RefsOk(hs[e], |vertices|, |hs|, |faces|);
        }
      }
      SameEdgeKeysWf(vertices, hs, halfEdges, faces);
    }

    /** The last step of Dcel.replaceEdgesWithStaircases: every edge gets class AB. */
    method AssignClassAB()
      requires Valid()
      modifies this`halfEdges
      ensures Valid()
      ensures |halfEdges| == |old(halfEdges)|
      ensures forall e :: 0 <= e < |halfEdges| ==> halfEdges[e] == old(halfEdges[e]).(cls := Some(AB))
    {
      ghost var hs := halfEdges;
      var i := 0;
      while i < |halfEdges|
        invariant 0 <= i <= |halfEdges| && |halfEdges| == |hs|
        invariant forall e :: 0 <= e < i ==> halfEdges[e] == hs[e].(cls := Some(AB))
        invariant forall e :: i <= e < |halfEdges| ==> halfEdges[e] == hs[e]
      {
        halfEdges := halfEdges[i := halfEdges[i].(cls := Some(AB))];
        i := i + 1;
      }
      assert forall e :: 0 <= e < |halfEdges| ==> RefsOk(halfEdges[e], |vertices|, |halfEdges|, |faces|) by {
        forall e | 0 <= e < |halfEdges| ensures RefsOk(halfEdges[e], |vertices|, |halfEdges|, |faces|) {
          assert RefsOk(hs[e], |vertices|, |hs|, |faces|);
        }
      }
      SameEdgeKeysWf(vertices, hs, halfEdges, faces);
    }
  }
}
