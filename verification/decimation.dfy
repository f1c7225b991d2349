/**
 * The simplifier's edge-collapse decimation, as functions of the mesh's
 * fields: the face-count goal, one collapse (a vertex at the merge point,
 * the two endpoint rings redirected to it, the faces on both sides spliced
 * out, the collapsed elements tombstoned with idx -1), the loop over the
 * pairs the priority queue yields, and the compaction that drops the
 * tombstones and numbers the survivors by their places.
 *
 * A reference outside its store reads as null, and reading a property
 * through null is a TypeError.
 */
module Decimation {
  import opened Wrappers
  import opened Store
  import opened Construction
  import opened Traversal
  import Quadric

  // ---------------------------------------------------------------------
  // The goal

  /** JavaScript's Math.round: the nearest integer, halves rounded up. */
  function Round(x: real): (k: int)
    ensures k as real - 0.5 <= x < k as real + 0.5
  {
    (x + 0.5).Floor
  }

  /** The face count the loop stops at: the faces minus the rounded share the ratio asks to remove. */
  function Goal(total: nat, ratio: real): (g: int)
    ensures ratio == 0.0 ==> g == total
    ensures ratio == 1.0 ==> g == 0
    ensures 0.0 <= ratio <= 1.0 ==> 0 <= g <= total
  {
    total - Round(total as real * ratio)
  }

  /** One entry the priority queue yields: the edge to collapse and the point it collapses to. */
  datatype Pop = Pop(pair: int, mergePoint: Quadric.Vec3)

  // ---------------------------------------------------------------------
  // One collapse

  /** Every half-edge of ring runs from vertex v instead; the others are unchanged. */
  function Redirected(hs: seq<Halfedge>, ring: seq<int>, v: int): (r: seq<Halfedge>)
    requires forall j :: 0 <= j < |ring| ==> 0 <= ring[j] < |hs|
    ensures |r| == |hs|
    ensures forall u :: 0 <= u < |hs| ==> r[u] == if u in ring then hs[u].(vertex := v) else hs[u]
    decreases |ring|
  {
    if ring == [] then hs
    else
      var s := Redirected(hs, ring[..|ring| - 1], v);
      var h := ring[|ring| - 1];
      s[h := s[h].(vertex := v)]
  }

  /** The collapsed edge, its half-edge, that half-edge's twin, and the vertices the two leave. */
  datatype Ends = Ends(edge: int, hf: int, tw: int, p1: int, p2: int)

  /** The collapse's first reads: the edge's half-edge, its twin and their vertices. */
  function EndsOf(m: MeshFields, e: int): (r: Result<Ends, BuildError>)
    requires 0 <= e < |m.edgeStore|
    ensures r.Ok? ==> Present(m.halfedgeStore, r.value.hf) && Present(m.halfedgeStore, r.value.tw)
    ensures r.Ok? ==> r.value.edge == e && r.value.hf == m.edgeStore[e].halfedge && r.value.tw == m.halfedgeStore[r.value.hf].twin
    ensures r.Ok? ==> r.value.p1 == m.halfedgeStore[r.value.hf].vertex && r.value.p2 == m.halfedgeStore[r.value.tw].vertex
    ensures r.Err? <==> !Present(m.halfedgeStore, m.edgeStore[e].halfedge) ||
                        !Present(m.halfedgeStore, m.halfedgeStore[m.edgeStore[e].halfedge].twin)
  {
    var hs := m.halfedgeStore;
    var hf := m.edgeStore[e].halfedge;
    if !Present(hs, hf) then Err(TypeError)
    else
      var tw := hs[hf].twin;
      if !Present(hs, tw) then Err(TypeError)
      else Ok(Ends(e, hf, tw, hs[hf].vertex, hs[tw].vertex))
  }

  /**
   * The new vertex: its idx is the next vertex number, its position the
   * merge point, and its half-edge the twin of the collapsed half-edge's
   * `prev`, whose idx is read.
   */
  function NewVertexOf(hs: seq<Halfedge>, hf: int, point: Quadric.Vec3, nextVertex: int): (r: Result<Vertex, BuildError>)
    requires Present(hs, hf)
    ensures r.Ok? <==> Present(hs, hs[hf].prev) && Present(hs, hs[hs[hf].prev].twin)
    ensures r.Ok? ==> r.value == Vertex(point, hs[hs[hf].prev].twin, nextVertex)
  {
    var pv := hs[hf].prev;
    if !Present(hs, pv) || !Present(hs, hs[pv].twin) then Err(TypeError)
    else Ok(Vertex(point, hs[pv].twin, nextVertex))
  }

  /** Vertex p's Vertex.halfedges ring in store hs, with vertex store vs. */
  function Ring(hs: seq<Halfedge>, vs: seq<Vertex>, p: int): (r: Result<seq<int>, BuildError>)
    ensures r.Ok? ==> 0 <= p < |vs| && Orbit(hs, AroundVertex, vs[p].halfedge) == r
    ensures r.Ok? ==> forall j :: 0 <= j < |r.value| ==> 0 <= r.value[j] < |hs|
  {
    if !(0 <= p < |vs|) then Err(TypeError)
    else
      var o := Orbit(hs, AroundVertex, vs[p].halfedge);
      if o.Ok? then
        OrbitWalkIsCycle(hs, AroundVertex, vs[p].halfedge);
        o
      else o
  }

  /**
   * The half-edges of both endpoints after the rings of p1 and then of p2
   * are redirected to vertex nv.
   */
  function Rerouted(hs: seq<Halfedge>, vs: seq<Vertex>, p1: int, p2: int, nv: int): (r: Result<seq<Halfedge>, BuildError>)
    ensures r.Ok? ==> |r.value| == |hs|
  {
    var ring1 := Ring(hs, vs, p1);
    if ring1.Err? then Err(ring1.error)
    else
      var hs1 := Redirected(hs, ring1.value, nv);
      var ring2 := Ring(hs1, vs, p2);
      if ring2.Err? then Err(ring2.error)
      else Ok(Redirected(hs1, ring2.value, nv))
  }

  /** The stores of m' are those of m with dv vertices and de edges appended. */
  predicate Grown(m: MeshFields, m': MeshFields, dv: nat, de: nat)
  {
    |m'.halfedgeStore| == |m.halfedgeStore| && |m'.faceStore| == |m.faceStore| &&
    |m'.vertexStore| == |m.vertexStore| + dv && |m'.edgeStore| == |m.edgeStore| + de
  }

  /** m and m' list the same elements in every array. */
  predicate SameArrays(m: MeshFields, m': MeshFields)
  {
    m'.vertices == m.vertices && m'.edges == m.edges && m'.faces == m.faces && m'.halfedges == m.halfedges
  }

  /** The splice test: the half-edge's face is not null (a virtual face passes it too). */
  predicate HasFace(m: MeshFields, ih: int)
    requires Present(m.halfedgeStore, ih)
  {
    0 <= m.halfedgeStore[ih].face < |m.faceStore|
  }

  /** What the splice reads of half-edge ih first: its face, its `prev` l and `next` r, their edges and their twins. */
  datatype Wing = Wing(f: int, l: int, r: int, le: int, re: int, lt: int, rt: int)

  /** The splice's first reads; reading through a null `prev` or `next` is a TypeError. */
  function WingOf(m: MeshFields, ih: int): (r: Result<Wing, BuildError>)
    requires Present(m.halfedgeStore, ih)
    ensures r.Ok? <==> Present(m.halfedgeStore, m.halfedgeStore[ih].prev) && Present(m.halfedgeStore, m.halfedgeStore[ih].next)
    ensures r.Ok? ==> r.value.f == m.halfedgeStore[ih].face && r.value.l == m.halfedgeStore[ih].prev && r.value.r == m.halfedgeStore[ih].next
    ensures r.Ok? ==> var hs := m.halfedgeStore; var w := r.value;
      w.le == hs[w.l].edge && w.re == hs[w.r].edge && w.lt == hs[w.l].twin && w.rt == hs[w.r].twin
  {
    var hs := m.halfedgeStore;
    var l, r := hs[ih].prev, hs[ih].next;
    if !Present(hs, l) || !Present(hs, r) then Err(TypeError)
    else Ok(Wing(hs[ih].face, l, r, hs[l].edge, hs[r].edge, hs[l].twin, hs[r].twin))
  }

  /**
   * The splice's first writes: a new edge (numbered nextEdge, on l's twin)
   * is appended, the corner c that l leaves points at r's twin, and the
   * twins of l and r become each other's twins.
   */
  function Relinked(m: MeshFields, w: Wing, nextEdge: int): (r: Result<MeshFields, BuildError>)
    requires Present(m.halfedgeStore, w.l)
    ensures r.Ok? ==> Grown(m, r.value, 0, 1) && SameArrays(m, r.value)
  {
    var hs, vs := m.halfedgeStore, m.vertexStore;
    var es1 := m.edgeStore + [Edge(w.lt, nextEdge)];
    var c := hs[w.l].vertex;
    if !(0 <= c < |vs|) then Err(TypeError)
    else
      var vs1 := vs[c := vs[c].(halfedge := w.rt)];
      if !Present(hs, w.lt) then Err(TypeError)
      else
        var hs1 := hs[w.lt := hs[w.lt].(twin := w.rt)];
        if !Present(hs1, w.rt) then Err(TypeError)
        else
          var hs2 := hs1[w.rt := hs1[w.rt].(twin := w.lt)];
          Ok(m.(halfedgeStore := hs2, edgeStore := es1, vertexStore := vs1))
  }

  /**
   * The splice's edge writes: the current edges of l's and r's twins are
   * tombstoned, and both twins move to the new edge ne.
   */
  function Reedged(m: MeshFields, w: Wing, ne: int): (r: Result<MeshFields, BuildError>)
    requires Present(m.halfedgeStore, w.lt) && Present(m.halfedgeStore, w.rt)
    ensures r.Ok? ==> Grown(m, r.value, 0, 0) && SameArrays(m, r.value)
  {
    var hs, es := m.halfedgeStore, m.edgeStore;
    var el := hs[w.lt].edge;
    if !(0 <= el < |es|) then Err(TypeError)
    else
      var es1 := es[el := es[el].(idx := -1)];
      var er := hs[w.rt].edge;
      if !(0 <= er < |es1|) then Err(TypeError)
      else
        var es2 := es1[er := es1[er].(idx := -1)];
        var hs1 := hs[w.lt := hs[w.lt].(edge := ne)];
        var hs2 := hs1[w.rt := hs1[w.rt].(edge := ne)];
        Ok(m.(halfedgeStore := hs2, edgeStore := es2))
  }

  /** The splice's tombstones: l, r, their edges and the face get idx -1, and the new edge ne joins `edges`. */
  function Retired(m: MeshFields, w: Wing, ne: int): (r: Result<MeshFields, BuildError>)
    requires Present(m.halfedgeStore, w.l) && Present(m.halfedgeStore, w.r) && 0 <= w.f < |m.faceStore|
    ensures r.Ok? ==> Grown(m, r.value, 0, 0) && r.value.edges == m.edges + [ne]
    ensures r.Ok? ==> r.value.vertices == m.vertices && r.value.faces == m.faces && r.value.halfedges == m.halfedges
  {
    var hs, es, fs := m.halfedgeStore, m.edgeStore, m.faceStore;
    var hs1 := hs[w.l := hs[w.l].(idx := -1)];
    var hs2 := hs1[w.r := hs1[w.r].(idx := -1)];
    if !(0 <= w.le < |es|) then Err(TypeError)
    else
      var es1 := es[w.le := es[w.le].(idx := -1)];
      if !(0 <= w.re < |es1|) then Err(TypeError)
      else
        var es2 := es1[w.re := es1[w.re].(idx := -1)];
        Ok(m.(halfedgeStore := hs2, edgeStore := es2, faceStore := fs[w.f := fs[w.f].(idx := -1)], edges := m.edges + [ne]))
  }

  /**
   * Splicing out the face of half-edge ih (its `prev` l, its `next` r):
   * the new edge is appended, the corner l leaves points at r's twin, the
   * twins of l and r become mutual twins on the new edge with their old
   * edges tombstoned, and l, r, their edges and the face are tombstoned.
   */
  function Splice(m: MeshFields, ih: int, nextEdge: int): (r: Result<MeshFields, BuildError>)
    requires Present(m.halfedgeStore, ih) && HasFace(m, ih)
    ensures r.Ok? ==> Grown(m, r.value, 0, 1) && r.value.edges == m.edges + [|m.edgeStore|]
    ensures r.Ok? ==> r.value.vertices == m.vertices && r.value.faces == m.faces && r.value.halfedges == m.halfedges
  {
    var w := WingOf(m, ih);
    if w.Err? then Err(w.error)
    else
      var m1 := Relinked(m, w.value, nextEdge);
      if m1.Err? then Err(m1.error)
      else
        var m2 := Reedged(m1.value, w.value, |m.edgeStore|);
        if m2.Err? then Err(m2.error)
        else Retired(m2.value, w.value, |m.edgeStore|)
  }

  /** One side of the collapse: the face of half-edge ih is spliced out and counted when it is not null. */
  function Side(m: MeshFields, ih: int, nextEdge: int): (r: Result<(MeshFields, nat), BuildError>)
    requires Present(m.halfedgeStore, ih)
    ensures r.Ok? ==> r.value.1 == (if HasFace(m, ih) then 1 else 0) && Grown(m, r.value.0, 0, r.value.1)
  {
    if !HasFace(m, ih) then Ok((m, 0))
    else
      var s := Splice(m, ih, nextEdge);
      if s.Err? then Err(s.error) else Ok((s.value, 1))
  }

  /** A phase's outcome: it returned, or the error it stopped on. */
  function Done(r: Result<MeshFields, BuildError>): Outcome<BuildError>
  {
    if r.Ok? then Pass else Fail(r.error)
  }

  /** The count a collapse or a side reports, or its error. */
  function Removed(r: Result<(MeshFields, nat), BuildError>): Result<nat, BuildError>
  {
    if r.Ok? then Ok(r.value.1) else Err(r.error)
  }

  /**
   * The collapse's last writes: both endpoints, the edge, its half-edge
   * and that half-edge's current twin are tombstoned, and the new vertex
   * nv joins `vertices`.
   */
  function Tombstoned(m: MeshFields, ends: Ends, nv: int): (r: Result<MeshFields, BuildError>)
    requires 0 <= ends.p1 < |m.vertexStore| && 0 <= ends.p2 < |m.vertexStore|
    requires 0 <= ends.edge < |m.edgeStore| && Present(m.halfedgeStore, ends.hf)
    ensures r.Ok? ==> Grown(m, r.value, 0, 0) && r.value.vertices == m.vertices + [nv]
  {
    var vs1 := m.vertexStore[ends.p1 := m.vertexStore[ends.p1].(idx := -1)];
    var vs2 := vs1[ends.p2 := vs1[ends.p2].(idx := -1)];
    var es1 := m.edgeStore[ends.edge := m.edgeStore[ends.edge].(idx := -1)];
    var hs1 := m.halfedgeStore[ends.hf := m.halfedgeStore[ends.hf].(idx := -1)];
    var t := hs1[ends.hf].twin;
    if !Present(hs1, t) then Err(TypeError)
    else
      var hs2 := hs1[t := hs1[t].(idx := -1)];
      Ok(m.(vertexStore := vs2, edgeStore := es1, halfedgeStore := hs2, vertices := m.vertices + [nv]))
  }

  /**
   * The first half of the collapse of edge e: the reads, the new vertex
   * (numbered nextVertex, at the merge point) appended to the vertex
   * store, and the rings of both endpoints redirected to it.
   */
  function Opened(m: MeshFields, pop: Pop, nextVertex: int): (r: Result<(MeshFields, Ends), BuildError>)
    requires 0 <= pop.pair < |m.edgeStore|
    ensures r.Ok? ==> Grown(m, r.value.0, 1, 0) && SameArrays(m, r.value.0)
    ensures r.Ok? ==> var en := r.value.1;
      en.edge == pop.pair && Present(m.halfedgeStore, en.hf) && Present(m.halfedgeStore, en.tw) &&
      0 <= en.p1 < |m.vertexStore| && 0 <= en.p2 < |m.vertexStore|
  {
    var ends := EndsOf(m, pop.pair);
    if ends.Err? then Err(ends.error)
    else
      var en := ends.value;
      var nvx := NewVertexOf(m.halfedgeStore, en.hf, pop.mergePoint, nextVertex);
      if nvx.Err? then Err(nvx.error)
      else if !(0 <= en.p1 < |m.vertexStore|) || !(0 <= en.p2 < |m.vertexStore|) then Err(TypeError)
      else
        var vs1 := m.vertexStore + [nvx.value];
        var hs1 := Rerouted(m.halfedgeStore, vs1, en.p1, en.p2, |m.vertexStore|);
        if hs1.Err? then Err(hs1.error)
        else Ok((m.(halfedgeStore := hs1.value, vertexStore := vs1), en))
  }

  /**
   * The loop over [curr_hf, curr_hf.twin]: the face of half-edge hf, then
   * the face of half-edge tw, are spliced out (new edges numbered from
   * nextEdge); the result carries the number of faces counted as removed.
   */
  function Sides(m: MeshFields, hf: int, tw: int, nextEdge: int): (r: Result<(MeshFields, nat), BuildError>)
    requires Present(m.halfedgeStore, hf) && Present(m.halfedgeStore, tw)
    ensures r.Ok? ==> r.value.1 <= 2 && Grown(m, r.value.0, 0, r.value.1)
  {
    var s1 := Side(m, hf, nextEdge);
    if s1.Err? then Err(s1.error)
    else
      var s2 := Side(s1.value.0, tw, nextEdge + s1.value.1);
      if s2.Err? then Err(s2.error) else Ok((s2.value.0, s1.value.1 + s2.value.1))
  }

  /**
   * The second half: both sides spliced, then the collapsed elements are
   * tombstoned and the new vertex nv joins `vertices`; the result carries
   * the number of faces counted as removed.
   */
  function Sewn(m: MeshFields, en: Ends, nv: int, nextEdge: int): (r: Result<(MeshFields, nat), BuildError>)
    requires Present(m.halfedgeStore, en.hf) && Present(m.halfedgeStore, en.tw)
    requires 0 <= en.p1 < |m.vertexStore| && 0 <= en.p2 < |m.vertexStore| && 0 <= en.edge < |m.edgeStore|
    ensures r.Ok? ==> r.value.1 <= 2 && Grown(m, r.value.0, 0, r.value.1)
  {
    var s := Sides(m, en.hf, en.tw, nextEdge);
    if s.Err? then Err(s.error)
    else
      var t := Tombstoned(s.value.0, en, nv);
      if t.Err? then Err(t.error) else Ok((t.value, s.value.1))
  }

  /**
   * The collapse of live edge pop.pair: the first half, then the second,
   * with the new vertex at the end of the old vertex store; the result
   * carries the number of faces counted as removed.
   */
  function Collapse(m: MeshFields, pop: Pop, nextVertex: int, nextEdge: int): (r: Result<(MeshFields, nat), BuildError>)
    requires 0 <= pop.pair < |m.edgeStore|
  {
    var o := Opened(m, pop, nextVertex);
    if o.Err? then Err(o.error) else Sewn(o.value.0, o.value.1, |m.vertexStore|, nextEdge)
  }

  // ---------------------------------------------------------------------
  // The loop

  /**
   * The decimation loop from pop i on, with the current face count, the
   * goal and the next vertex and edge numbers: it runs while the count is
   * above the goal and above 0.
   */
  function DecimateFrom(m: MeshFields, pops: seq<Pop>, i: nat, count: int, goal: int, nextVertex: int, nextEdge: int)
    : (r: Result<(MeshFields, int), BuildError>)
    requires i <= |pops|
    ensures r.Ok? ==> r.value.1 <= count && !(r.value.1 > goal && r.value.1 > 0)
    decreases |pops| - i, 4
  {
    if !(count > goal && count > 0) then Ok((m, count))
    else DecimatePop(m, pops, i, count, goal, nextVertex, nextEdge)
  }

  /**
   * The pop: an exhausted queue yields undefined, and reading its pair is a
   * TypeError, as is a pair outside the edge store.
   */
  function DecimatePop(m: MeshFields, pops: seq<Pop>, i: nat, count: int, goal: int, nextVertex: int, nextEdge: int)
    : (r: Result<(MeshFields, int), BuildError>)
    requires i <= |pops|
    ensures r.Ok? ==> r.value.1 <= count && !(r.value.1 > goal && r.value.1 > 0)
    decreases |pops| - i, 3
  {
    if i == |pops| || !(0 <= pops[i].pair < |m.edgeStore|) then Err(TypeError)
    else DecimatePair(m, pops, i, count, goal, nextVertex, nextEdge)
  }

  /** The popped edge: a tombstoned one is skipped, a live one collapsed. */
  function DecimatePair(m: MeshFields, pops: seq<Pop>, i: nat, count: int, goal: int, nextVertex: int, nextEdge: int)
    : (r: Result<(MeshFields, int), BuildError>)
    requires i < |pops| && 0 <= pops[i].pair < |m.edgeStore|
    ensures r.Ok? ==> r.value.1 <= count && !(r.value.1 > goal && r.value.1 > 0)
    decreases |pops| - i, 2
  {
    if m.edgeStore[pops[i].pair].idx == -1 then DecimateFrom(m, pops, i + 1, count, goal, nextVertex, nextEdge)
    else DecimateEdge(m, pops, i, count, goal, nextVertex, nextEdge)
  }

  /** The collapse of pop i's live edge, and the rest of the loop. */
  function DecimateEdge(m: MeshFields, pops: seq<Pop>, i: nat, count: int, goal: int, nextVertex: int, nextEdge: int)
    : (r: Result<(MeshFields, int), BuildError>)
    requires i < |pops| && 0 <= pops[i].pair < |m.edgeStore|
    ensures r.Ok? ==> r.value.1 <= count && !(r.value.1 > goal && r.value.1 > 0)
    decreases |pops| - i, 1
  {
    DecimateAfter(Collapse(m, pops[i], nextVertex, nextEdge), pops, i, count, goal, nextVertex, nextEdge)
  }

  /**
   * The rest of the loop once pop i's collapse gave c: its error, the break
   * at count 0, or the next pop with the count lowered by the faces the
   * collapse counted.
   */
  function DecimateAfter(c: Result<(MeshFields, nat), BuildError>, pops: seq<Pop>, i: nat, count: int, goal: int,
                         nextVertex: int, nextEdge: int)
    : (r: Result<(MeshFields, int), BuildError>)
    requires i < |pops|
    ensures r.Ok? ==> r.value.1 <= count && !(r.value.1 > goal && r.value.1 > 0)
    decreases |pops| - i, 0
  {
    if c.Err? then Err(c.error)
    else if count - c.value.1 == 0 then Ok((c.value.0, 0))
    else DecimateFrom(c.value.0, pops, i + 1, count - c.value.1, goal, nextVertex + 1, nextEdge + c.value.1)
  }

  /** A popped tombstoned edge is passed over: the loop goes on with the next pop. */
  lemma DecimateSkips(m: MeshFields, pops: seq<Pop>, i: nat, count: int, goal: int, nextVertex: int, nextEdge: int)
    requires i < |pops| && count > goal && count > 0
    requires 0 <= pops[i].pair < |m.edgeStore| && m.edgeStore[pops[i].pair].idx == -1
    ensures DecimateFrom(m, pops, i, count, goal, nextVertex, nextEdge)
         == DecimateFrom(m, pops, i + 1, count, goal, nextVertex, nextEdge)
  {
    assert DecimatePop(m, pops, i, count, goal, nextVertex, nextEdge)
        == DecimatePair(m, pops, i, count, goal, nextVertex, nextEdge);
  }

  /** A popped live edge is collapsed. */
  lemma DecimateLive(m: MeshFields, pops: seq<Pop>, i: nat, count: int, goal: int, nextVertex: int, nextEdge: int)
    requires i < |pops| && count > goal && count > 0
    requires 0 <= pops[i].pair < |m.edgeStore| && m.edgeStore[pops[i].pair].idx != -1
    ensures DecimateFrom(m, pops, i, count, goal, nextVertex, nextEdge)
         == DecimateAfter(Collapse(m, pops[i], nextVertex, nextEdge), pops, i, count, goal, nextVertex, nextEdge)
  {
    assert DecimatePop(m, pops, i, count, goal, nextVertex, nextEdge)
        == DecimatePair(m, pops, i, count, goal, nextVertex, nextEdge);
    assert DecimatePair(m, pops, i, count, goal, nextVertex, nextEdge)
        == DecimateEdge(m, pops, i, count, goal, nextVertex, nextEdge);
  }

  /**
   * A loop pass on a popped live edge whose collapse gave c, reported as
   * outcome r and mesh m': the loop stops on the error, or goes on from m'
   * with the count lowered by the faces the collapse counted (the break at
   * count 0 included).
   */
  lemma DecimateStepped(m: MeshFields, pops: seq<Pop>, i: nat, count: int, goal: int, nextVertex: int, nextEdge: int,
                        c: Result<(MeshFields, nat), BuildError>, m': MeshFields, r: Result<nat, BuildError>)
    requires i < |pops|
    requires DecimateFrom(m, pops, i, count, goal, nextVertex, nextEdge) == DecimateAfter(c, pops, i, count, goal, nextVertex, nextEdge)
    requires r == Removed(c) && (r.Ok? ==> m' == c.value.0)
    ensures r.Err? ==> DecimateFrom(m, pops, i, count, goal, nextVertex, nextEdge) == Err(r.error)
    ensures r.Ok? ==> DecimateFrom(m, pops, i, count, goal, nextVertex, nextEdge)
                      == DecimateFrom(m', pops, i + 1, count - r.value, goal, nextVertex + 1, nextEdge + r.value)
  {
  }

  // ---------------------------------------------------------------------
  // Compaction

  function VertexIdx(v: Vertex): int { v.idx }
  function EdgeIdx(e: Edge): int { e.idx }
  function FaceIdx(f: Face): int { f.idx }
  function HalfedgeIdx(h: Halfedge): int { h.idx }
  function VertexNumbered(v: Vertex, i: int): Vertex { v.(idx := i) }
  function EdgeNumbered(e: Edge, i: int): Edge { e.(idx := i) }
  function FaceNumbered(f: Face, i: int): Face { f.(idx := i) }
  function HalfedgeNumbered(h: Halfedge, i: int): Halfedge { h.(idx := i) }

  /** The filter of one array: the references whose record has idx >= 0, in order; reading past the store is a TypeError. */
  function Kept<T>(store: seq<T>, idxOf: T -> int, arr: seq<int>): (r: Result<seq<int>, BuildError>)
    ensures r.Ok? <==> forall j :: 0 <= j < |arr| ==> 0 <= arr[j] < |store|
    ensures r.Ok? ==> forall j :: 0 <= j < |r.value| ==> 0 <= r.value[j] < |store| && idxOf(store[r.value[j]]) >= 0
    ensures r.Err? ==> r.error == TypeError
    ensures r.Ok? ==> |r.value| <= |arr|
    decreases |arr|
  {
    if arr == [] then Ok([])
    else
      var r := Kept(store, idxOf, arr[..|arr| - 1]);
      var x := arr[|arr| - 1];
      if r.Err? then r
      else if !(0 <= x < |store|) then Err(TypeError)
      else if idxOf(store[x]) >= 0 then Ok(r.value + [x])
      else r
  }

  /** The renumbering loop of one array: record arr[i] gets idx i, for i = 0, 1, ... in turn. */
  function Renumbered<T>(store: seq<T>, setIdx: (T, int) -> T, arr: seq<int>): (r: seq<T>)
    requires forall i :: 0 <= i < |arr| ==> 0 <= arr[i] < |store|
    ensures |r| == |store|
    decreases |arr|
  {
    if arr == [] then store
    else
      var s := Renumbered(store, setIdx, arr[..|arr| - 1]);
      var x := arr[|arr| - 1];
      s[x := setIdx(s[x], |arr| - 1)]
  }

  /** Array.prototype.filter keeping the records with idx >= 0. */
  method KeepLive<T>(store: seq<T>, idxOf: T -> int, arr: seq<int>) returns (r: Result<seq<int>, BuildError>)
    ensures r == Kept(store, idxOf, arr)
  {
    var kept := [];
    var i := 0;
    while i < |arr|
      invariant 0 <= i <= |arr|
      invariant Kept(store, idxOf, arr[..i]) == Ok(kept)
    {
      assert arr[..i + 1][..i] == arr[..i];
      var x := arr[i];
      if !(0 <= x < |store|) {
        KeptPastError(store, idxOf, arr, i + 1);
        return Err(TypeError);
      }
      if idxOf(store[x]) >= 0 {
        kept := kept + [x];
      }
      i := i + 1;
    }
    assert arr[..i] == arr;
    return Ok(kept);
  }

  /** Once a prefix of the array fails the filter, the whole array does. */
  lemma KeptPastError<T>(store: seq<T>, idxOf: T -> int, arr: seq<int>, i: nat)
    requires i <= |arr| && Kept(store, idxOf, arr[..i]).Err?
    ensures Kept(store, idxOf, arr).Err?
  {
    assert !(forall j :: 0 <= j < i ==> 0 <= arr[..i][j] < |store|);
  }

  /** The renumbering loop: `for (i = 0; i < arr.length; i++) arr[i].idx = i`. */
  method Renumber<T>(store: seq<T>, setIdx: (T, int) -> T, arr: seq<int>) returns (r: seq<T>)
    requires forall i :: 0 <= i < |arr| ==> 0 <= arr[i] < |store|
    ensures r == Renumbered(store, setIdx, arr)
  {
    r := store;
    var i := 0;
    while i < |arr|
      invariant 0 <= i <= |arr|
      invariant r == Renumbered(store, setIdx, arr[..i])
    {
      assert arr[..i + 1][..i] == arr[..i];
      r := r[arr[i] := setIdx(r[arr[i]], i)];
      i := i + 1;
    }
    assert arr[..i] == arr;
  }

  /** Every reference in the four arrays points into its store. */
  predicate InStores(m: MeshFields)
  {
    (forall j :: 0 <= j < |m.edges| ==> 0 <= m.edges[j] < |m.edgeStore|) &&
    (forall j :: 0 <= j < |m.halfedges| ==> 0 <= m.halfedges[j] < |m.halfedgeStore|) &&
    (forall j :: 0 <= j < |m.vertices| ==> 0 <= m.vertices[j] < |m.vertexStore|) &&
    (forall j :: 0 <= j < |m.faces| ==> 0 <= m.faces[j] < |m.faceStore|)
  }

  /** The four filters: `edges`, `halfedges`, `vertices` and `faces` keep the records with idx >= 0. */
  function Filtered(m: MeshFields): (r: Result<MeshFields, BuildError>)
    ensures r.Ok? <==> InStores(m)
    ensures r.Ok? ==> InStores(r.value)
  {
    var ke := Kept(m.edgeStore, EdgeIdx, m.edges);
    var kh := Kept(m.halfedgeStore, HalfedgeIdx, m.halfedges);
    var kv := Kept(m.vertexStore, VertexIdx, m.vertices);
    var kf := Kept(m.faceStore, FaceIdx, m.faces);
    if ke.Err? || kh.Err? || kv.Err? || kf.Err? then Err(TypeError)
    else Ok(m.(edges := ke.value, halfedges := kh.value, vertices := kv.value, faces := kf.value))
  }

  /** The four renumbering loops: each survivor's idx becomes its place in its array. */
  function Reindexed(m: MeshFields): (r: MeshFields)
    requires InStores(m)
    ensures Grown(m, r, 0, 0) && SameArrays(m, r) && InStores(r)
  {
    m.(edgeStore := Renumbered(m.edgeStore, EdgeNumbered, m.edges),
       halfedgeStore := Renumbered(m.halfedgeStore, HalfedgeNumbered, m.halfedges),
       vertexStore := Renumbered(m.vertexStore, VertexNumbered, m.vertices),
       faceStore := Renumbered(m.faceStore, FaceNumbered, m.faces))
  }

  /** The compaction after the loop: the filters, then the renumbering. */
  function Compacted(m: MeshFields): (r: Result<MeshFields, BuildError>)
    ensures r.Ok? <==> InStores(m)
    ensures r.Ok? ==> Grown(m, r.value, 0, 0) && InStores(r.value)
    ensures r.Ok? ==> |r.value.vertices| <= |m.vertices| && |r.value.edges| <= |m.edges| &&
                      |r.value.faces| <= |m.faces| && |r.value.halfedges| <= |m.halfedges|
  {
    var f := Filtered(m);
    if f.Err? then Err(f.error) else Ok(Reindexed(f.value))
  }

  /** simplify(ratio) on a mesh, with the pairs the queue yields: the decimation loop, then the compaction. */
  function Simplified(m: MeshFields, ratio: real, pops: seq<Pop>): (r: Result<MeshFields, BuildError>)
    ensures r.Ok? ==> InStores(r.value)
  {
    var d := DecimateFrom(m, pops, 0, |m.faces|, Goal(|m.faces|, ratio), |m.vertices|, |m.edges|);
    if d.Err? then Err(d.error) else Compacted(d.value.0)
  }
}
