/**
 * The states a builder passes through, as predicates over the values of the
 * mesh's fields: what the face pass leaves, what the boundary pass leaves,
 * and the numbered mesh a constructor returns.
 */
module Construction {
  import opened Connectivity
  import opened Pairing
  import opened Store
  import opened Holes
  import Quadric
  /** Corners per face: the simplifier's reader uses 4 when some face is a quad, the other readers 3. */
  function StrideOf(variant: Variant, containsQuad: bool): (n: nat)
    ensures n == 3 || n == 4
    ensures n == 4 <==> variant == Krasnor && containsQuad
  {
    if variant == Krasnor then Stride(containsQuad) else 3
  }

  /**
   * Face f after the index pass: a face of `faces` (the first nf) gets its
   * place there, a virtual face its place in `boundaries` when the remeshing
   * builder numbers them, and keeps idx -1 otherwise.
   */
  function NumberedFace(variant: Variant, nf: nat, f: nat, g: Face): (h: Face)
  {
    if f < nf then g.(idx := f) else if variant == Changkun then g.(idx := f - nf) else g
  }

  /** The fields of a mesh at one moment, as values. */
  datatype MeshFields = MeshFields(
    halfedgeStore: seq<Halfedge>, edgeStore: seq<Edge>, faceStore: seq<Face>, vertexStore: seq<Vertex>,
    vertices: seq<int>, edges: seq<int>, faces: seq<int>, halfedges: seq<int>,
    boundaries: seq<Boundary>, vertsOrig: seq<Vertex>, isQuadMesh: bool)

  /**
   * What a face pass that succeeded leaves, store by store, for the
   * vertices vs0 it started from: the half-edges of the faces (no boundary
   * half-edges yet), an edge per side, the faces, each array listing its
   * store, and every corner naming a vertex (and, when the builder checks,
   * no side used thrice).
   */
  ghost predicate FacesClosed(vs0: seq<Vertex>, checks: bool, setsQuad: bool, indices: seq<int>, n: nat, hasTwin: seq<bool>,
                              m: MeshFields)
  {
    Strided(indices, n) &&
    m.halfedgeStore == Passed(indices, n) && |m.halfedgeStore| == RealHalfedgeCount(indices, n) &&
    hasTwin == Flags(Pairs(AllKeys(indices, n, FaceCount(indices, n))), RealHalfedgeCount(indices, n)) &&
    m.edgeStore == EdgeRecords(Pairs(AllKeys(indices, n, FaceCount(indices, n)))) &&
    m.vertexStore == VerticesAfter(vs0, indices, n, FaceCount(indices, n), 0) &&
    m.faceStore == FacesDone(indices, n, setsQuad, FaceCount(indices, n)) &&
    m.halfedges == Ids(|m.halfedgeStore|) && m.edges == Ids(|m.edgeStore|) && m.faces == Ids(FaceCount(indices, n)) &&
    CornersInRange(indices, n, |vs0|) && (checks ==> ManifoldInput(indices, n))
  }

  /**
   * The stores between faces: faces 0 .. k-1 are done, their half-edges
   * linked and paired by the bookkeeping p, and the builder's maps are p's.
   */
  ghost predicate BetweenFaces(vs0: seq<Vertex>, setsQuad: bool, indices: seq<int>, n: nat, k: nat,
                               p: PairState, hasTwin: seq<bool>, existed: map<Key, int>, count: map<Key, int>,
                            m: MeshFields)
  {
    Strided(indices, n) && k <= FaceCount(indices, n) &&
    Shaped(p) && |p.twin| == Base(indices, n, k) &&
    m.halfedgeStore == Paired(LinksUpTo(indices, n, k), p) &&
    hasTwin == Flags(p, |m.halfedgeStore|) && existed == p.existed && count == p.count &&
    m.edgeStore == EdgeRecords(p) && m.edges == Ids(|m.edgeStore|) &&
    m.vertexStore == VerticesAfter(vs0, indices, n, k, 0) &&
    m.faceStore == FacesDone(indices, n, setsQuad, k) &&
    m.halfedges == Ids(|m.halfedgeStore|) && m.faces == Ids(k)
  }


  /**
   * The stores inside face k: its half-edges are allocated, the first j
   * of them linked and paired, and the face points at the last one linked.
   */
  ghost predicate InFace(vs0: seq<Vertex>, setsQuad: bool, indices: seq<int>, n: nat, k: nat, j: nat,
                         p: PairState, hasTwin: seq<bool>, existed: map<Key, int>, count: map<Key, int>,
                            m: MeshFields)
  {
    Strided(indices, n) && k < FaceCount(indices, n) && j <= Arity(indices, n, k) &&
    Shaped(p) && |p.twin| == Base(indices, n, k) + j &&
    m.halfedgeStore == Paired(LinksUpTo(indices, n, k) + FaceLinks(indices, n, k, j) + Fresh(Arity(indices, n, k) - j), p) &&
    hasTwin == Flags(p, |m.halfedgeStore|) && existed == p.existed && count == p.count &&
    m.edgeStore == EdgeRecords(p) && m.edges == Ids(|m.edgeStore|) &&
    m.vertexStore == VerticesAfter(vs0, indices, n, k, j) &&
    m.faceStore == FacesDone(indices, n, setsQuad, k) + [FaceInProgress(indices, n, k, j)] &&
    m.halfedges == Ids(|m.halfedgeStore|) && m.faces == Ids(k + 1)
  }


  /** The face pass inside face k after j corners, with the keys met so far. */
  ghost predicate CornersDone(vs0: seq<Vertex>, checks: bool, setsQuad: bool, indices: seq<int>, n: nat, k: nat, j: nat,
                              keys: seq<Key>, hasTwin: seq<bool>, existed: map<Key, int>, count: map<Key, int>,
                            m: MeshFields)
  {
    Strided(indices, n) && k < FaceCount(indices, n) && j <= Arity(indices, n, k) &&
    keys == AllKeys(indices, n, k + 1)[..Base(indices, n, k) + j] &&
    InFace(vs0, setsQuad, indices, n, k, j, Pairs(keys), hasTwin, existed, count, m) &&
    FirstCornersInRange(indices, n, k, j, |vs0|) &&
    (checks ==> AtMostTwice(keys))
  }


  /** The face pass after faces 0 .. k-1, none of which failed. */
  ghost predicate FacesPassed(vs0: seq<Vertex>, checks: bool, setsQuad: bool, indices: seq<int>, n: nat, k: nat,
                              hasTwin: seq<bool>, existed: map<Key, int>, count: map<Key, int>,
                            m: MeshFields)
  {
    Strided(indices, n) && k <= FaceCount(indices, n) &&
    BetweenFaces(vs0, setsQuad, indices, n, k, Pairs(AllKeys(indices, n, k)), hasTwin, existed, count, m) &&
    FacesInRange(indices, n, k, |vs0|) &&
    (checks ==> ManifoldUpTo(indices, n, k))
  }

  /** The vertex store ws is vs with every vertex numbered by its place. */
  ghost predicate VerticesNumbered(vs: seq<Vertex>, ws: seq<Vertex>)
  {
    |ws| == |vs| && forall v :: 0 <= v < |vs| ==> ws[v] == vs[v].(idx := v)
  }

  /** The edge store ws is es with every edge numbered by its place. */
  ghost predicate EdgesNumbered(es: seq<Edge>, ws: seq<Edge>)
  {
    |ws| == |es| && forall e :: 0 <= e < |es| ==> ws[e] == es[e].(idx := e)
  }

  /** The half-edge store ws is hs with every half-edge numbered by its place. */
  ghost predicate HalfedgesNumbered(hs: seq<Halfedge>, ws: seq<Halfedge>)
  {
    |ws| == |hs| && forall u :: 0 <= u < |hs| ==> ws[u] == hs[u].(idx := u)
  }

  /** The face store ws is fs with its faces numbered as NumberedFace says. */
  ghost predicate FacesNumbered(variant: Variant, nf: nat, fs: seq<Face>, ws: seq<Face>)
  {
    |ws| == |fs| && forall f :: 0 <= f < |fs| ==> ws[f] == NumberedFace(variant, nf, f, fs[f])
  }

  /**
   * The copies of the vertices after the index pass, given the copy vo
   * before it: for the smoothing builder a copy of the numbered vertices
   * ws, for the parameterisation builder the earlier copies numbered, and
   * otherwise unchanged.
   */
  ghost predicate CopiesNumbered(variant: Variant, vo: seq<Vertex>, ws: seq<Vertex>, wo: seq<Vertex>)
  {
    (variant == Torantie ==> wo == ws) &&
    (variant == Nico ==> VerticesNumbered(vo, wo)) &&
    (variant != Torantie && variant != Nico ==> wo == vo)
  }

  /**
   * The stores after the index pass, given the stores vs, es, fs, hs and
   * the copy vo before it: every vertex, edge and half-edge is numbered
   * by its place in its array, faces as NumberedFace says, and the copies
   * as CopiesNumbered says.
   */
  ghost predicate Numbered(variant: Variant, nf: nat, vs: seq<Vertex>, es: seq<Edge>, fs: seq<Face>, hs: seq<Halfedge>, vo: seq<Vertex>,
                           m: MeshFields)
  {
    VerticesNumbered(vs, m.vertexStore) && EdgesNumbered(es, m.edgeStore) &&
    FacesNumbered(variant, nf, fs, m.faceStore) && HalfedgesNumbered(hs, m.halfedgeStore) &&
    CopiesNumbered(variant, vo, m.vertexStore, m.vertsOrig)
  }

  /** The half-edges and faces the builder leaves before numbering, for the corner list indices of stride n. */
  ghost predicate Linked(variant: Variant, indices: seq<int>, n: nat, hes: seq<Halfedge>, flags: seq<bool>, fs: seq<Face>, starts: seq<nat>)
  {
    Strided(indices, n) &&
    var base := Passed(indices, n);
    |base| <= |hes| == |flags| && (forall u :: 0 <= u < |hes| ==> ClosedAt(base, hes, flags, u)) &&
    Loops(hes, FacesDone(indices, n, variant == Krasnor, FaceCount(indices, n)), fs, starts, |base|)
  }

  /** The mesh's arrays: each store in allocation order, real faces only, and the loops as the variant lists them. */
  ghost predicate Listed(variant: Variant, nf: nat, starts: seq<nat>, m: MeshFields)
  {
    |starts| >= 1 &&
    m.vertices == Ids(|m.vertexStore|) && m.edges == Ids(|m.edgeStore|) && m.faces == Ids(nf) && m.halfedges == Ids(|m.halfedgeStore|) &&
    m.boundaries == BoundaryEntries(variant, starts, nf)
  }

  /**
   * The mesh a builder makes of the positions and the 0-based corner list:
   * the half-edges hes are closed (a twin each, next and prev inverse,
   * boundary loops on virtual faces, twins mutual where the face pass made
   * them so), and the stores are the numbered vertices, edges, faces fs and
   * half-edges hes of the face and boundary passes.
   */
  ghost predicate Built(variant: Variant, containsQuad: bool, indices: seq<int>, positions: seq<Quadric.Vec3>,
                        hes: seq<Halfedge>, flags: seq<bool>, fs: seq<Face>, starts: seq<nat>, m: MeshFields)
  {
    var n := StrideOf(variant, containsQuad);
    Linked(variant, indices, n, hes, flags, fs, starts) && Listed(variant, FaceCount(indices, n), starts, m) &&
    CornersInRange(indices, n, |positions|) && (ChecksManifold(variant) ==> ManifoldInput(indices, n)) &&
    Numbered(variant, FaceCount(indices, n),
             VerticesAfter(NewVertices(positions), indices, n, FaceCount(indices, n), 0),
             EdgeRecords(Pairs(AllKeys(indices, n, FaceCount(indices, n)))), fs, hes,
             if variant == Nico then NewVertices(positions) else [], m) &&
    m.isQuadMesh == (variant == Krasnor && containsQuad)
  }
}
