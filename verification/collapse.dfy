/**
 * What one edge collapse of the simplifier does to the mesh: the new
 * vertex sits at the merge point with the next vertex number, the rings of
 * both endpoints run from it, the faces on both sides (virtual ones too)
 * are spliced out and counted, the twins around each spliced face are
 * joined on a new edge, and the collapsed elements are tombstoned.
 */
module Collapsing {
  import opened Wrappers
  import opened Store
  import opened Construction
  import opened Traversal
  import opened Holes
  import opened Decimation

  /**
   * What every phase of a collapse keeps: the half-edge and face stores'
   * sizes (the others only grow), each half-edge's face, each vertex's
   * position, every face already tombstoned, and the face and half-edge
   * arrays.
   */
  predicate Keeps(m: MeshFields, m': MeshFields)
  {
    |m'.halfedgeStore| == |m.halfedgeStore| && |m'.faceStore| == |m.faceStore| &&
    |m.vertexStore| <= |m'.vertexStore| && |m.edgeStore| <= |m'.edgeStore| &&
    (forall u :: 0 <= u < |m.halfedgeStore| ==> m'.halfedgeStore[u].face == m.halfedgeStore[u].face) &&
    (forall v :: 0 <= v < |m.vertexStore| ==> m'.vertexStore[v].position == m.vertexStore[v].position) &&
    (forall f :: 0 <= f < |m.faceStore| && m.faceStore[f].idx == -1 ==> m'.faceStore[f].idx == -1) &&
    m'.faces == m.faces && m'.halfedges == m.halfedges
  }

  /** The vertex store of m' is that of m with the same idx everywhere (a splice only moves a corner's half-edge). */
  predicate SameVertexIdx(m: MeshFields, m': MeshFields)
  {
    |m'.vertexStore| == |m.vertexStore| &&
    forall v :: 0 <= v < |m.vertexStore| ==> m'.vertexStore[v].idx == m.vertexStore[v].idx
  }

  /** Keeping is transitive. */
  lemma KeepsTrans(m1: MeshFields, m2: MeshFields, m3: MeshFields)
    requires Keeps(m1, m2) && Keeps(m2, m3)
    ensures Keeps(m1, m3)
  {
  }

  /** The first writes of a splice: the new edge on l's twin, the corner's half-edge, the mutual twins. */
  lemma RelinkedEffects(m: MeshFields, w: Wing, nextEdge: int)
    requires Present(m.halfedgeStore, w.l) && Relinked(m, w, nextEdge).Ok?
    ensures var m1 := Relinked(m, w, nextEdge).value;
      Keeps(m, m1) && SameVertexIdx(m, m1) && m1.edgeStore == m.edgeStore + [Edge(w.lt, nextEdge)] &&
      m1.edges == m.edges && m1.vertices == m.vertices
    ensures var m1 := Relinked(m, w, nextEdge).value;
      Present(m.halfedgeStore, w.lt) && Present(m.halfedgeStore, w.rt) &&
      m1.halfedgeStore[w.lt].twin == w.rt && m1.halfedgeStore[w.rt].twin == w.lt &&
      0 <= m.halfedgeStore[w.l].vertex < |m.vertexStore| && m1.vertexStore[m.halfedgeStore[w.l].vertex].halfedge == w.rt
  {
  }

  /** The edge writes of a splice: l's and r's twins move to edge ne; twins and edge records' half-edges stay. */
  lemma ReedgedEffects(m: MeshFields, w: Wing, ne: int)
    requires Present(m.halfedgeStore, w.lt) && Present(m.halfedgeStore, w.rt) && Reedged(m, w, ne).Ok?
    ensures var m2 := Reedged(m, w, ne).value;
      Keeps(m, m2) && m2.vertexStore == m.vertexStore && m2.edges == m.edges && m2.vertices == m.vertices &&
      |m2.edgeStore| == |m.edgeStore| &&
      m2.halfedgeStore[w.lt].edge == ne && m2.halfedgeStore[w.rt].edge == ne
    ensures var m2 := Reedged(m, w, ne).value;
      (forall u :: 0 <= u < |m.halfedgeStore| ==> m2.halfedgeStore[u].twin == m.halfedgeStore[u].twin) &&
      forall e :: 0 <= e < |m.edgeStore| ==> m2.edgeStore[e].halfedge == m.edgeStore[e].halfedge
  {
  }

  /** The tombstones of a splice: only idx fields change, and l, r, their edges and the face get -1. */
  lemma RetiredEffects(m: MeshFields, w: Wing, ne: int)
    requires Present(m.halfedgeStore, w.l) && Present(m.halfedgeStore, w.r) && 0 <= w.f < |m.faceStore|
    requires Retired(m, w, ne).Ok?
    ensures var m3 := Retired(m, w, ne).value;
      Keeps(m, m3) && m3.vertexStore == m.vertexStore && m3.edges == m.edges + [ne] && m3.vertices == m.vertices &&
      |m3.edgeStore| == |m.edgeStore|
    ensures var m3 := Retired(m, w, ne).value;
      (forall u :: 0 <= u < |m.halfedgeStore| ==> m3.halfedgeStore[u] == m.halfedgeStore[u].(idx := m3.halfedgeStore[u].idx)) &&
      forall e :: 0 <= e < |m.edgeStore| ==> m3.edgeStore[e].halfedge == m.edgeStore[e].halfedge
    ensures var m3 := Retired(m, w, ne).value;
      m3.halfedgeStore[w.l].idx == -1 && m3.halfedgeStore[w.r].idx == -1 &&
      0 <= w.le < |m.edgeStore| && m3.edgeStore[w.le].idx == -1 &&
      0 <= w.re < |m.edgeStore| && m3.edgeStore[w.re].idx == -1 && m3.faceStore[w.f].idx == -1
  {
  }

  /**
   * Splicing out the face of half-edge ih: the twins of its `prev` l and
   * `next` r become mutual twins on the new edge, which the twin of l
   * carries; the corner l leaves points at r's twin; l, r, their edges and
   * the face are tombstoned; the new edge joins `edges`.
   */
  lemma SpliceEffects(m: MeshFields, ih: int, nextEdge: int)
    requires Present(m.halfedgeStore, ih) && HasFace(m, ih) && Splice(m, ih, nextEdge).Ok?
    ensures WingOf(m, ih).Ok?
    ensures var m' := Splice(m, ih, nextEdge).value;
      Keeps(m, m') && SameVertexIdx(m, m') && m'.edges == m.edges + [|m.edgeStore|] && m'.vertices == m.vertices &&
      |m'.edgeStore| == |m.edgeStore| + 1
    ensures var w, m' := WingOf(m, ih).value, Splice(m, ih, nextEdge).value;
      Present(m.halfedgeStore, w.lt) && Present(m.halfedgeStore, w.rt) &&
      m'.halfedgeStore[w.lt].twin == w.rt && m'.halfedgeStore[w.rt].twin == w.lt &&
      m'.halfedgeStore[w.lt].edge == |m.edgeStore| && m'.halfedgeStore[w.rt].edge == |m.edgeStore| &&
      m'.edgeStore[|m.edgeStore|].halfedge == w.lt &&
      0 <= m.halfedgeStore[w.l].vertex < |m.vertexStore| && m'.vertexStore[m.halfedgeStore[w.l].vertex].halfedge == w.rt
    ensures var w, m' := WingOf(m, ih).value, Splice(m, ih, nextEdge).value;
      m'.halfedgeStore[w.l].idx == -1 && m'.halfedgeStore[w.r].idx == -1 &&
      0 <= w.le < |m'.edgeStore| && m'.edgeStore[w.le].idx == -1 &&
      0 <= w.re < |m'.edgeStore| && m'.edgeStore[w.re].idx == -1 &&
      m'.faceStore[w.f].idx == -1
  {
    var w := WingOf(m, ih).value;
    var ne := |m.edgeStore|;
    RelinkedEffects(m, w, nextEdge);
    var m1 := Relinked(m, w, nextEdge).value;
    ReedgedEffects(m1, w, ne);
    var m2 := Reedged(m1, w, ne).value;
    RetiredEffects(m2, w, ne);
    var m3 := Retired(m2, w, ne).value;
    assert Splice(m, ih, nextEdge) == Ok(m3);
    KeepsTrans(m, m1, m2);
    KeepsTrans(m, m2, m3);
    assert m3.halfedgeStore[w.lt].twin == m2.halfedgeStore[w.lt].twin;
    assert m3.halfedgeStore[w.rt].twin == m2.halfedgeStore[w.rt].twin;
    assert m3.edgeStore[ne].halfedge == m1.edgeStore[ne].halfedge;
  }

  /**
   * One side of the collapse: when half-edge ih has a face (a virtual one
   * too) that face is tombstoned, one new edge joins `edges` and the side
   * reports 1; otherwise nothing changes and it reports 0.
   */
  lemma SideEffects(m: MeshFields, ih: int, nextEdge: int)
    requires Present(m.halfedgeStore, ih) && Side(m, ih, nextEdge).Ok?
    ensures SideDid(m, ih, Side(m, ih, nextEdge).value.0, Side(m, ih, nextEdge).value.1)
  {
    if HasFace(m, ih) {
      SpliceEffects(m, ih, nextEdge);
      assert Range(|m.edgeStore|, |m.edgeStore| + 1) == [|m.edgeStore|];
      assert Side(m, ih, nextEdge).value.0 == Splice(m, ih, nextEdge).value;
    } else {
      assert Range(|m.edgeStore|, |m.edgeStore|) == [];
    }
  }

  /**
   * What one side leaves: m' keeps what the collapse relies on, k counts
   * the face of ih when it is not null, that face is tombstoned, and k new
   * edges join `edges`.
   */
  predicate SideDid(m: MeshFields, ih: int, m': MeshFields, k: nat)
  {
    Present(m.halfedgeStore, ih) &&
    Keeps(m, m') && SameVertexIdx(m, m') && m'.vertices == m.vertices &&
    k == (if HasFace(m, ih) then 1 else 0) && |m'.edgeStore| == |m.edgeStore| + k &&
    m'.edges == m.edges + Range(|m.edgeStore|, |m.edgeStore| + k) &&
    (HasFace(m, ih) ==> m'.faceStore[m.halfedgeStore[ih].face].idx == -1)
  }

  /**
   * Both sides: the faces of hf and tw (each one that is not null,
   * virtual faces included) are tombstoned and counted, and one new edge
   * per counted face joins `edges`.
   */
  lemma SidesEffects(m: MeshFields, hf: int, tw: int, nextEdge: int)
    requires Present(m.halfedgeStore, hf) && Present(m.halfedgeStore, tw) && Sides(m, hf, tw, nextEdge).Ok?
    ensures SidesDid(m, hf, tw, Sides(m, hf, tw, nextEdge).value.0, Sides(m, hf, tw, nextEdge).value.1)
  {
    var s1 := Side(m, hf, nextEdge).value;
    SideEffects(m, hf, nextEdge);
    SideEffects(s1.0, tw, nextEdge + s1.1);
    var s2 := Side(s1.0, tw, nextEdge + s1.1).value;
    assert Sides(m, hf, tw, nextEdge).value == (s2.0, s1.1 + s2.1);
    SidesCompose(m, s1.0, s2.0, s1.1, s2.1, hf, tw);
  }

  /** What both sides leave: the faces of hf and tw that are not null are counted and tombstoned. */
  predicate SidesDid(m: MeshFields, hf: int, tw: int, m': MeshFields, k: nat)
  {
    Present(m.halfedgeStore, hf) && Present(m.halfedgeStore, tw) &&
    Keeps(m, m') && SameVertexIdx(m, m') && m'.vertices == m.vertices &&
    k == (if HasFace(m, hf) then 1 else 0) + (if HasFace(m, tw) then 1 else 0) &&
    |m'.edgeStore| == |m.edgeStore| + k && m'.edges == m.edges + Range(|m.edgeStore|, |m.edgeStore| + k) &&
    (HasFace(m, hf) ==> m'.faceStore[m.halfedgeStore[hf].face].idx == -1) &&
    (HasFace(m, tw) ==> m'.faceStore[m.halfedgeStore[tw].face].idx == -1)
  }

  /** Two sides in a row, composed from what each side does on its own. */
  lemma SidesCompose(m: MeshFields, a: MeshFields, b: MeshFields, k1: nat, k2: nat, hf: int, tw: int)
    requires Present(m.halfedgeStore, tw) && SideDid(m, hf, a, k1) && SideDid(a, tw, b, k2)
    ensures SidesDid(m, hf, tw, b, k1 + k2)
  {
    KeepsTrans(m, a, b);
    RangeSplit(m.edges, |m.edgeStore|, k1, k2);
  }

  /** Appending references lo .. lo+a-1, then lo+a .. lo+a+b-1, appends lo .. lo+a+b-1. */
  lemma RangeSplit(e: seq<int>, lo: nat, a: nat, b: nat)
    ensures e + Range(lo, lo + a) + Range(lo + a, lo + a + b) == e + Range(lo, lo + a + b)
  {
  }

  /**
   * The first half of a collapse: the new vertex, at the merge point with
   * the next vertex number and the half-edge the source picks, is appended;
   * every half-edge of the first endpoint's ring runs from it; the only
   * half-edge field that changes is `vertex`, and only to the new vertex.
   */
  lemma OpenedEffects(m: MeshFields, pop: Pop, nextVertex: int, en: Ends)
    requires 0 <= pop.pair < |m.edgeStore| && EndsOf(m, pop.pair) == Ok(en) && Opened(m, pop, nextVertex).Ok?
    ensures Opened(m, pop, nextVertex).value.1 == en
    ensures var m1 := Opened(m, pop, nextVertex).value.0;
      Keeps(m, m1) && m1.vertexStore[..|m.vertexStore|] == m.vertexStore &&
      Present(m.halfedgeStore, m.halfedgeStore[en.hf].prev) &&
      m1.vertexStore == m.vertexStore + [Vertex(pop.mergePoint, m.halfedgeStore[m.halfedgeStore[en.hf].prev].twin, nextVertex)]
    ensures var m1 := Opened(m, pop, nextVertex).value.0;
      forall u :: 0 <= u < |m.halfedgeStore| ==>
        m1.halfedgeStore[u] == m.halfedgeStore[u].(vertex := m1.halfedgeStore[u].vertex) &&
        (m1.halfedgeStore[u].vertex == m.halfedgeStore[u].vertex || m1.halfedgeStore[u].vertex == |m.vertexStore|)
  {
    var vs1 := m.vertexStore + [NewVertexOf(m.halfedgeStore, en.hf, pop.mergePoint, nextVertex).value];
    var ring1 := Ring(m.halfedgeStore, vs1, en.p1).value;
    var hs1 := Redirected(m.halfedgeStore, ring1, |m.vertexStore|);
    var ring2 := Ring(hs1, vs1, en.p2).value;
    assert Opened(m, pop, nextVertex).value.0.halfedgeStore == Redirected(hs1, ring2, |m.vertexStore|);
    assert vs1[..|m.vertexStore|] == m.vertexStore;
  }

  /**
   * The rings of both endpoints, as the iterator around each vertex visits
   * them before the collapse, run from the new vertex after its first half.
   */
  lemma OpenedRings(m: MeshFields, pop: Pop, nextVertex: int, en: Ends)
    requires 0 <= pop.pair < |m.edgeStore| && EndsOf(m, pop.pair) == Ok(en) && Opened(m, pop, nextVertex).Ok?
    ensures 0 <= en.p1 < |m.vertexStore| && 0 <= en.p2 < |m.vertexStore|
    ensures RunsFrom(m.halfedgeStore, m.vertexStore[en.p1].halfedge, Opened(m, pop, nextVertex).value.0.halfedgeStore, |m.vertexStore|)
    ensures RunsFrom(m.halfedgeStore, m.vertexStore[en.p2].halfedge, Opened(m, pop, nextVertex).value.0.halfedgeStore, |m.vertexStore|)
  {
    var vs1 := m.vertexStore + [NewVertexOf(m.halfedgeStore, en.hf, pop.mergePoint, nextVertex).value];
    var nv := |m.vertexStore|;
    var ring1 := Ring(m.halfedgeStore, vs1, en.p1).value;
    var hs1 := Redirected(m.halfedgeStore, ring1, nv);
    var ring2 := Ring(hs1, vs1, en.p2).value;
    var hs2 := Redirected(hs1, ring2, nv);
    assert Opened(m, pop, nextVertex).value.0.halfedgeStore == hs2;
    assert vs1[en.p1] == m.vertexStore[en.p1] && vs1[en.p2] == m.vertexStore[en.p2];
    OrbitFromSameLinks(m.halfedgeStore, hs1, AroundVertex, vs1[en.p2].halfedge, vs1[en.p2].halfedge, |m.halfedgeStore|);
    forall j | 0 <= j < |ring1|
      ensures hs2[ring1[j]].vertex == nv
    {
      assert hs1[ring1[j]].vertex == nv;
    }
  }

  /** The iterator around the vertex of h0 in hs succeeds, and every half-edge it visits runs from v in hs'. */
  ghost predicate RunsFrom(hs: seq<Halfedge>, h0: int, hs': seq<Halfedge>, v: int)
  {
    var ring := Orbit(hs, AroundVertex, h0);
    ring.Ok? && forall j :: 0 <= j < |ring.value| ==> 0 <= ring.value[j] < |hs'| && hs'[ring.value[j]].vertex == v
  }

  /** The iterators see only `next` and `twin`: stores that agree on those agree on every walk. */
  lemma {:induction false} OrbitFromSameLinks(hs: seq<Halfedge>, hs': seq<Halfedge>, step: Step, h0: int, h: int, fuel: nat)
    requires |hs'| == |hs|
    requires forall u :: 0 <= u < |hs| ==> hs'[u].next == hs[u].next && hs'[u].twin == hs[u].twin
    ensures OrbitFrom(hs', step, h0, h, fuel) == OrbitFrom(hs, step, h0, h, fuel)
    decreases fuel
  {
    if Present(hs, h) {
      assert Advance(hs', step, h) == Advance(hs, step, h);
      if fuel > 0 {
        OrbitFromSameLinks(hs, hs', step, h0, hs[h].next, fuel - 1);
        if step == AroundVertex && Present(hs, hs[h].twin) {
          OrbitFromSameLinks(hs, hs', step, h0, hs[hs[h].twin].next, fuel - 1);
        }
      }
    }
  }

  /**
   * The last writes: the collapsed edge, both endpoints and the collapsed
   * half-edge are tombstoned, the new vertex nv joins `vertices`, and
   * nothing else the collapse relies on moves.
   */
  lemma TombstonedEffects(m: MeshFields, en: Ends, nv: int)
    requires 0 <= en.p1 < |m.vertexStore| && 0 <= en.p2 < |m.vertexStore|
    requires 0 <= en.edge < |m.edgeStore| && Present(m.halfedgeStore, en.hf) && Tombstoned(m, en, nv).Ok?
    ensures var t := Tombstoned(m, en, nv).value;
      Keeps(m, t) && |t.vertexStore| == |m.vertexStore| && |t.edgeStore| == |m.edgeStore| &&
      t.vertices == m.vertices + [nv] && t.edges == m.edges &&
      t.edgeStore[en.edge].idx == -1 && t.vertexStore[en.p1].idx == -1 && t.vertexStore[en.p2].idx == -1 &&
      t.halfedgeStore[en.hf].idx == -1
    ensures var t := Tombstoned(m, en, nv).value;
      forall v :: 0 <= v < |m.vertexStore| && v != en.p1 && v != en.p2 ==> t.vertexStore[v].idx == m.vertexStore[v].idx
  {
  }

  /**
   * One collapse of edge pop.pair, whose first reads are en: the new
   * vertex (at the end of the vertex store) sits at the merge point with
   * the next vertex number and joins `vertices`; the edge, both endpoints
   * and the collapsed half-edge are tombstoned; the other vertices keep
   * their positions; the face and half-edge arrays are unchanged.
   */
  lemma CollapseEffects(m: MeshFields, pop: Pop, nextVertex: int, nextEdge: int, en: Ends)
    requires 0 <= pop.pair < |m.edgeStore| && EndsOf(m, pop.pair) == Ok(en) && Collapse(m, pop, nextVertex, nextEdge).Ok?
    ensures var c := Collapse(m, pop, nextVertex, nextEdge).value.0;
      Keeps(m, c) && |c.vertexStore| == |m.vertexStore| + 1 &&
      c.vertices == m.vertices + [|m.vertexStore|] &&
      c.vertexStore[|m.vertexStore|].position == pop.mergePoint && c.vertexStore[|m.vertexStore|].idx == nextVertex
    ensures var c := Collapse(m, pop, nextVertex, nextEdge).value.0;
      0 <= en.p1 < |c.vertexStore| && 0 <= en.p2 < |c.vertexStore| &&
      c.edgeStore[pop.pair].idx == -1 && c.vertexStore[en.p1].idx == -1 && c.vertexStore[en.p2].idx == -1 &&
      c.halfedgeStore[en.hf].idx == -1
  {
    OpenedEffects(m, pop, nextVertex, en);
    var m1 := Opened(m, pop, nextVertex).value.0;
    var nv := |m.vertexStore|;
    SidesEffects(m1, en.hf, en.tw, nextEdge);
    var s := Sides(m1, en.hf, en.tw, nextEdge).value;
    TombstonedEffects(s.0, en, nv);
    assert Collapse(m, pop, nextVertex, nextEdge).value.0 == Tombstoned(s.0, en, nv).value;
  }

  /**
   * The count one collapse reports is the number of faces on its two
   * sides that are not null, virtual faces included, and each of them is
   * tombstoned; one new edge per counted face joins `edges`.
   */
  lemma CollapseCounts(m: MeshFields, pop: Pop, nextVertex: int, nextEdge: int, en: Ends)
    requires 0 <= pop.pair < |m.edgeStore| && EndsOf(m, pop.pair) == Ok(en) && Collapse(m, pop, nextVertex, nextEdge).Ok?
    ensures var c, k := Collapse(m, pop, nextVertex, nextEdge).value.0, Collapse(m, pop, nextVertex, nextEdge).value.1;
      k == (if HasFace(m, en.hf) then 1 else 0) + (if HasFace(m, en.tw) then 1 else 0) &&
      c.edges == m.edges + Range(|m.edgeStore|, |m.edgeStore| + k)
    ensures HasFace(m, en.hf) ==> Collapse(m, pop, nextVertex, nextEdge).value.0.faceStore[m.halfedgeStore[en.hf].face].idx == -1
    ensures HasFace(m, en.tw) ==> Collapse(m, pop, nextVertex, nextEdge).value.0.faceStore[m.halfedgeStore[en.tw].face].idx == -1
  {
    OpenedEffects(m, pop, nextVertex, en);
    var m1 := Opened(m, pop, nextVertex).value.0;
    var nv := |m.vertexStore|;
    SidesEffects(m1, en.hf, en.tw, nextEdge);
    var s := Sides(m1, en.hf, en.tw, nextEdge).value;
    TombstonedEffects(s.0, en, nv);
    assert Collapse(m, pop, nextVertex, nextEdge).value == (Tombstoned(s.0, en, nv).value, s.1);
  }
}
