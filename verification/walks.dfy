/**
 * The iterators on a mesh the builder made: the walk along `next` from a
 * face's own half-edge visits exactly the face's half-edges, starting with
 * its last corner, and the vertices it passes are the face's corners.
 */
module Walks {
  import opened Wrappers
  import opened Connectivity
  import opened Store
  import opened Holes
  import opened Construction
  import opened Traversal
  import Quadric

  /** The half-edges of face k in the order `next` visits them from the face's own half-edge (its last corner's). */
  function FaceWalk(indices: seq<int>, n: nat, k: nat): (w: seq<int>)
    requires Strided(indices, n) && k < FaceCount(indices, n)
    ensures |w| == Arity(indices, n, k)
  {
    var a, b := Arity(indices, n, k), Base(indices, n, k);
    seq(a, i requires 0 <= i < a => b + NextSteps(a - 1, a, i))
  }

  /** The corners of face k, from the last one, then the others in their order on the face's line. */
  function FaceCorners(indices: seq<int>, n: nat, k: nat): (cs: seq<int>)
    requires Strided(indices, n) && k < FaceCount(indices, n)
    ensures |cs| == Arity(indices, n, k)
  {
    var a := Arity(indices, n, k);
    [Corner(indices, n, k, a - 1)] + seq(a - 1, j requires 0 <= j < a - 1 => Corner(indices, n, k, j))
  }

  /** Every half-edge of the face pass keeps its `next` and its vertex in store hs. */
  ghost predicate KeepsFaceLinks(hs: seq<Halfedge>, indices: seq<int>, n: nat)
    requires Strided(indices, n)
  {
    var base := Passed(indices, n);
    |base| <= |hs| && forall u :: 0 <= u < |base| ==> hs[u].next == base[u].next && hs[u].vertex == base[u].vertex
  }

  /** The built mesh keeps the links the face pass made. */
  lemma BuiltKeepsLinks(variant: Variant, containsQuad: bool, indices: seq<int>, positions: seq<Quadric.Vec3>,
                        hes: seq<Halfedge>, flags: seq<bool>, fs: seq<Face>, starts: seq<nat>, m: MeshFields)
    requires Built(variant, containsQuad, indices, positions, hes, flags, fs, starts, m)
    ensures KeepsFaceLinks(m.halfedgeStore, indices, StrideOf(variant, containsQuad))
  {
    var base := Passed(indices, StrideOf(variant, containsQuad));
    assert HalfedgesNumbered(hes, m.halfedgeStore);
    forall u | 0 <= u < |base|
      ensures m.halfedgeStore[u].next == base[u].next && m.halfedgeStore[u].vertex == base[u].vertex
    {
      assert ClosedAt(base, hes, flags, u);
    }
  }

  /** Face k of the built mesh points at the half-edge of its last corner. */
  lemma BuiltFaceHalfedge(variant: Variant, containsQuad: bool, indices: seq<int>, positions: seq<Quadric.Vec3>,
                          hes: seq<Halfedge>, flags: seq<bool>, fs: seq<Face>, starts: seq<nat>, m: MeshFields, k: nat)
    requires Built(variant, containsQuad, indices, positions, hes, flags, fs, starts, m)
    requires k < FaceCount(indices, StrideOf(variant, containsQuad))
    ensures k < |m.faceStore|
    ensures
      var n := StrideOf(variant, containsQuad);
      m.faceStore[k].halfedge == Base(indices, n, k) + Arity(indices, n, k) - 1
  {
    var n := StrideOf(variant, containsQuad);
    var fs0 := FacesDone(indices, n, variant == Krasnor, FaceCount(indices, n));
    assert Loops(hes, fs0, fs, starts, RealHalfedgeCount(indices, n));
    assert fs[k] == fs[..|fs0|][k] == fs0[k];
    assert FacesNumbered(variant, FaceCount(indices, n), fs, m.faceStore);
  }

  /** In a store where half-edge b + j of face k runs to b + NextCorner(j) from corner j, step i of the face walk leads to step i + 1. */
  lemma WalkStepAt(hs: seq<Halfedge>, indices: seq<int>, n: nat, k: nat, i: nat, j: nat)
    requires Strided(indices, n) && k < FaceCount(indices, n) && i < Arity(indices, n, k)
    requires j == NextSteps(Arity(indices, n, k) - 1, Arity(indices, n, k), i)
    requires Base(indices, n, k) + j < |hs|
    requires hs[Base(indices, n, k) + j].next == Base(indices, n, k) + NextCorner(j, Arity(indices, n, k))
    requires hs[Base(indices, n, k) + j].vertex == Corner(indices, n, k, j)
    ensures
      var w := FaceWalk(indices, n, k);
      Present(hs, w[i]) && Advance(hs, AlongFace, w[i]) == Ok(Following(w, i)) &&
      hs[w[i]].vertex == FaceCorners(indices, n, k)[i] &&
      (i > 0 ==> w[i] != w[0])
  {
    var a := Arity(indices, n, k);
    NextCycleOrder(a - 1, a);
    assert NextSteps(a - 1, a, i + 1) == NextCorner(j, a);
    if i > 0 {
      NextStepsShift(a - 1, a, i);
      ModOnce(a - 1 + i, a);
    }
  }

  /** A store that keeps the `next` and vertex of half-edge Base(k) + j of the face pass links it inside face k. */
  lemma KeptCornerLinks(hs: seq<Halfedge>, indices: seq<int>, n: nat, k: nat, j: nat)
    requires Strided(indices, n) && k < FaceCount(indices, n) && j < Arity(indices, n, k)
    requires KeepsFaceLinks(hs, indices, n)
    ensures Base(indices, n, k) + j < |hs|
    ensures hs[Base(indices, n, k) + j].next == Base(indices, n, k) + NextCorner(j, Arity(indices, n, k))
    ensures hs[Base(indices, n, k) + j].vertex == Corner(indices, n, k, j)
  {
    SlotsBound(indices, n, k);
    PassedLinks(indices, n, k, j);
  }

  /** Step i of the face walk, in a store that keeps the face pass links, leads to step i + 1, and the last step back to the first. */
  lemma FaceWalkStep(hs: seq<Halfedge>, indices: seq<int>, n: nat, k: nat, i: nat)
    requires Strided(indices, n) && k < FaceCount(indices, n) && i < Arity(indices, n, k)
    requires KeepsFaceLinks(hs, indices, n)
    ensures
      var w := FaceWalk(indices, n, k);
      Present(hs, w[i]) && Advance(hs, AlongFace, w[i]) == Ok(Following(w, i)) &&
      hs[w[i]].vertex == FaceCorners(indices, n, k)[i] &&
      (i > 0 ==> w[i] != w[0])
  {
    var a := Arity(indices, n, k);
    var j := NextSteps(a - 1, a, i);
    KeptCornerLinks(hs, indices, n, k, j);
    WalkStepAt(hs, indices, n, k, i, j);
  }

  /** In a store that keeps the face pass links, the face walk of face k is a closed walk along `next` through its corners. */
  lemma KeptFaceCycle(hs: seq<Halfedge>, indices: seq<int>, n: nat, k: nat)
    requires Strided(indices, n) && k < FaceCount(indices, n)
    requires KeepsFaceLinks(hs, indices, n)
    ensures
      var w := FaceWalk(indices, n, k);
      IsCycle(hs, AlongFace, w) && |w| <= |hs| + 1 && w[0] == Base(indices, n, k) + Arity(indices, n, k) - 1 &&
      (forall i :: 0 <= i < |w| ==> 0 <= w[i] < |hs|) && VertexRefs(hs, w) == FaceCorners(indices, n, k)
  {
    var a := Arity(indices, n, k);
    var w := FaceWalk(indices, n, k);
    var cs := FaceCorners(indices, n, k);
    forall i | 0 <= i < a
      ensures Present(hs, w[i]) && Advance(hs, AlongFace, w[i]) == Ok(Following(w, i))
      ensures hs[w[i]].vertex == cs[i]
      ensures i > 0 ==> w[i] != w[0]
    {
      FaceWalkStep(hs, indices, n, k, i);
    }
    SlotsBound(indices, n, k);
    assert VertexRefs(hs, w) == cs;
  }

  /**
   * In a store that keeps the face pass links, the walk along `next` from
   * the half-edge of face k's last corner is the face walk, and the
   * vertices it passes are the face's corners.
   */
  lemma KeptFaceOrbit(hs: seq<Halfedge>, indices: seq<int>, n: nat, k: nat)
    requires Strided(indices, n) && k < FaceCount(indices, n)
    requires KeepsFaceLinks(hs, indices, n)
    ensures
      var h0 := Base(indices, n, k) + Arity(indices, n, k) - 1;
      var w := FaceWalk(indices, n, k);
      Orbit(hs, AlongFace, h0) == Ok(w) &&
      (forall i :: 0 <= i < |w| ==> 0 <= w[i] < |hs|) && VertexRefs(hs, w) == FaceCorners(indices, n, k)
  {
    KeptFaceCycle(hs, indices, n, k);
    OrbitIsCycle(hs, AlongFace, Base(indices, n, k) + Arity(indices, n, k) - 1, FaceWalk(indices, n, k));
  }

  /**
   * In a built mesh, Face.halfedges of face k visits the face's half-edges
   * in their `next` order from its last corner, and Face.vertices visits
   * its corners: the last one first, then the others as the face's line
   * lists them.
   */
  lemma BuiltFaceOrbit(variant: Variant, containsQuad: bool, indices: seq<int>, positions: seq<Quadric.Vec3>,
                       hes: seq<Halfedge>, flags: seq<bool>, fs: seq<Face>, starts: seq<nat>, m: MeshFields, k: nat)
    requires Built(variant, containsQuad, indices, positions, hes, flags, fs, starts, m)
    requires k < FaceCount(indices, StrideOf(variant, containsQuad))
    ensures k < |m.faceStore|
    ensures
      var n := StrideOf(variant, containsQuad);
      var w := FaceWalk(indices, n, k);
      Orbit(m.halfedgeStore, AlongFace, m.faceStore[k].halfedge) == Ok(w) &&
      (forall i :: 0 <= i < |w| ==> 0 <= w[i] < |m.halfedgeStore|) &&
      VertexRefs(m.halfedgeStore, w) == FaceCorners(indices, n, k)
  {
    BuiltFaceHalfedge(variant, containsQuad, indices, positions, hes, flags, fs, starts, m, k);
    BuiltKeepsLinks(variant, containsQuad, indices, positions, hes, flags, fs, starts, m);
    KeptFaceOrbit(m.halfedgeStore, indices, StrideOf(variant, containsQuad), k);
  }

  /** Every corner of face k names a vertex of store vs numbered by its place. */
  ghost predicate CornersNumbered(vs: seq<Vertex>, cs: seq<int>)
  {
    forall c :: 0 <= c < |cs| ==> 0 <= cs[c] < |vs| && vs[cs[c]].idx == cs[c]
  }

  /** The corners of every face of the built mesh name vertices numbered by their place. */
  lemma BuiltCornersNumbered(variant: Variant, containsQuad: bool, indices: seq<int>, positions: seq<Quadric.Vec3>,
                             hes: seq<Halfedge>, flags: seq<bool>, fs: seq<Face>, starts: seq<nat>, m: MeshFields, k: nat)
    requires Built(variant, containsQuad, indices, positions, hes, flags, fs, starts, m)
    requires k < FaceCount(indices, StrideOf(variant, containsQuad))
    ensures CornersNumbered(m.vertexStore, FaceCorners(indices, StrideOf(variant, containsQuad), k))
  {
    var n := StrideOf(variant, containsQuad);
    var a := Arity(indices, n, k);
    var cs := FaceCorners(indices, n, k);
    assert CornersInRange(indices, n, |positions|);
    assert FacesInRange(indices, n, FaceCount(indices, n), |positions|);
    assert FaceCornersInRange(indices, n, k, |positions|);
    assert VerticesNumbered(VerticesAfter(NewVertices(positions), indices, n, FaceCount(indices, n), 0), m.vertexStore);
    forall c | 0 <= c < a
      ensures 0 <= cs[c] < |m.vertexStore| && m.vertexStore[cs[c]].idx == cs[c]
    {
      assert cs[c] == Corner(indices, n, k, if c == 0 then a - 1 else c - 1);
    }
  }

  /**
   * When the vertices a face's closed walk passes are numbered by their
   * place, the idx-stop loop passes them up to the first one that repeats
   * the first, and returns normally.
   */
  lemma NumberedFaceVerticesByIdx(hs: seq<Halfedge>, vs: seq<Vertex>, h0: int, cs: seq<int>)
    requires Orbit(hs, AlongFace, h0).Ok?
    requires var w := Orbit(hs, AlongFace, h0).value;
      (forall c :: 0 <= c < |w| ==> 0 <= w[c] < |hs|) && VertexRefs(hs, w) == cs
    requires CornersNumbered(vs, cs)
    ensures
      var r := VerticesByIdx(hs, vs, h0);
      r.1 == Pass &&
      exists p :: 1 <= p <= |cs| && r.0 == cs[..p] && (forall c :: 0 < c < p ==> cs[c] != cs[0]) && (p < |cs| ==> cs[p] == cs[0])
    ensures (forall c :: 0 < c < |cs| ==> cs[c] != cs[0]) ==> VerticesByIdx(hs, vs, h0) == (cs, Pass)
  {
    var w := Orbit(hs, AlongFace, h0).value;
    OrbitWalkIsCycle(hs, AlongFace, h0);
    forall c | 0 <= c < |w|
      ensures 0 <= hs[w[c]].vertex < |vs| && hs[w[c]].vertex == cs[c]
    {
      assert hs[w[c]].vertex == VertexRefs(hs, w)[c];
    }
    VerticesByIdxOfOrbit(hs, vs, h0, w);
    var p := FirstIdxRepeat(hs, vs, w, 1);
    assert VertexRefs(hs, w[..p]) == cs[..p];
    if forall c :: 0 < c < |cs| ==> cs[c] != cs[0] {
      VerticesByIdxWhole(hs, vs, h0, w);
    }
  }

  /**
   * In a built mesh, the smoothing mesh's Face.vertices of face k passes
   * the face's corners (the last first) up to the first later corner that
   * repeats the first one, and returns normally; a face whose first corner
   * is not repeated yields all of its corners.
   */
  lemma BuiltFaceVerticesByIdx(variant: Variant, containsQuad: bool, indices: seq<int>, positions: seq<Quadric.Vec3>,
                               hes: seq<Halfedge>, flags: seq<bool>, fs: seq<Face>, starts: seq<nat>, m: MeshFields, k: nat)
    requires Built(variant, containsQuad, indices, positions, hes, flags, fs, starts, m)
    requires k < FaceCount(indices, StrideOf(variant, containsQuad))
    ensures k < |m.faceStore|
    ensures
      var cs := FaceCorners(indices, StrideOf(variant, containsQuad), k);
      var r := VerticesByIdx(m.halfedgeStore, m.vertexStore, m.faceStore[k].halfedge);
      r.1 == Pass &&
      exists p :: 1 <= p <= |cs| && r.0 == cs[..p] && (forall c :: 0 < c < p ==> cs[c] != cs[0]) && (p < |cs| ==> cs[p] == cs[0])
    ensures
      var cs := FaceCorners(indices, StrideOf(variant, containsQuad), k);
      (forall c :: 0 < c < |cs| ==> cs[c] != cs[0]) ==>
        VerticesByIdx(m.halfedgeStore, m.vertexStore, m.faceStore[k].halfedge) == (cs, Pass)
  {
    BuiltFaceOrbit(variant, containsQuad, indices, positions, hes, flags, fs, starts, m, k);
    BuiltCornersNumbered(variant, containsQuad, indices, positions, hes, flags, fs, starts, m, k);
    var cs := FaceCorners(indices, StrideOf(variant, containsQuad), k);
    NumberedFaceVerticesByIdx(m.halfedgeStore, m.vertexStore, m.faceStore[k].halfedge, cs);
  }
}
