/**
 * The half-edge mesh object and its construction from a flat corner list.
 *
 * The builder's stores are fields of the mesh; the builder's maps
 * (`hasTwinHalfedge`, `existedHalfedges`, `edgeCount`) are its local state
 * and travel between the methods as parameters and results. Every method of
 * the face pass is specified by the functions of module Store: before and
 * after it, the stores equal those functions of the corner list and of the
 * pairing bookkeeping.
 */
module Mesh {
  import opened Wrappers
  import opened Connectivity
  import opened Pairing
  import opened Store
  import opened Holes
  import Quadric
  import opened Construction
  import opened Decimation
  import Traversal

  class HalfedgeMesh {
    /** Every half-edge, edge, face and vertex object ever constructed, by reference. */
    var halfedgeStore: seq<Halfedge>
    var edgeStore: seq<Edge>
    var faceStore: seq<Face>
    var vertexStore: seq<Vertex>

    /** The mesh's arrays of references (virtual faces are not in `faces`). */
    var vertices: seq<int>
    var edges: seq<int>
    var faces: seq<int>
    var halfedges: seq<int>
    var boundaries: seq<Boundary>
    var vertsOrig: seq<Vertex>
    var isQuadMesh: bool

    /** The empty mesh the constructor starts from. */
    constructor()
      ensures halfedgeStore == [] && edgeStore == [] && faceStore == [] && vertexStore == []
      ensures vertices == [] && edges == [] && faces == [] && halfedges == [] && boundaries == [] && vertsOrig == []
      ensures !isQuadMesh
    {
      halfedgeStore, edgeStore, faceStore, vertexStore := [], [], [], [];
      vertices, edges, faces, halfedges, boundaries, vertsOrig := [], [], [], [], [], [];
      isQuadMesh := false;
    }

    /** The current fields. */
    function Fields(): (m: MeshFields)
      reads this
    {
      MeshFields(halfedgeStore, edgeStore, faceStore, vertexStore, vertices, edges, faces, halfedges, boundaries, vertsOrig, isQuadMesh)
    }


    /**
     * The pairing half of one corner: half-edge s, whose side has the given
     * key, becomes the mutual twin of the key's first half-edge and shares
     * its edge, or it is the first half-edge of a new edge, which points back
     * at it.
     */
    method PairCorner(s: nat, key: Key, hasTwin: seq<bool>, existed: map<Key, int>, count: map<Key, int>,
                      ghost hs: seq<Halfedge>, ghost p: PairState)
      returns (hasTwin': seq<bool>, existed': map<Key, int>, count': map<Key, int>)
      requires Shaped(p) && |p.twin| == s < |hs| && hs[s].twin == -1
      requires halfedgeStore == Paired(hs, p) && edgeStore == EdgeRecords(p) && edges == Ids(|edgeStore|)
      requires hasTwin == Flags(p, |hs|) && existed == p.existed && count == p.count
      modifies this`halfedgeStore, this`edgeStore, this`edges
      ensures halfedgeStore == Paired(hs, Step(p, key)) && edgeStore == EdgeRecords(Step(p, key))
      ensures edges == Ids(|edgeStore|)
      ensures hasTwin' == Flags(Step(p, key), |hs|) && existed' == Step(p, key).existed && count' == Step(p, key).count
    {
      var hes, eds := halfedgeStore, edgeStore;
      if key in existed {
        // he.twin = twin; twin.twin = he; he.edge = twin.edge (the second write leaves twin.edge as it was)
        var twin := existed[key];
        PairExistingStep(hs, p, key);
        hes := hes[s := hes[s].(twin := twin, edge := hes[twin].edge)];
        hes := hes[twin := hes[twin].(twin := s)];
        hasTwin' := hasTwin[s := true][twin := true];
        existed', count' := existed, count[key := count[key] + 1];
      } else {
        var e := |eds|;
        PairNewStep(hs, p, key);
        eds := eds + [Edge(-1, -1)];
        edges := edges + [e];
        hes := hes[s := hes[s].(edge := e)];
        eds := eds[e := eds[e].(halfedge := s)];
        hasTwin', existed', count' := hasTwin, existed[key := s], count[key := 1];
      }
      halfedgeStore, edgeStore := hes, eds;
    }

    /**
     * The linking half of one corner: half-edge Base(k) + j joins its face's
     * cycle, it and its vertex point at each other, and the face points at
     * it. A corner naming no vertex fails with a TypeError.
     */
    method AttachCorner(ghost vs0: seq<Vertex>, ghost setsQuad: bool, indices: seq<int>, n: nat, k: nat, j: nat,
                        ghost hasTwin: seq<bool>, ghost existed: map<Key, int>, ghost count: map<Key, int>, ghost p: PairState)
      returns (out: Outcome<BuildError>)
      requires InFace(vs0, setsQuad, indices, n, k, j, p, hasTwin, existed, count, Fields()) && j < Arity(indices, n, k)
      modifies this`halfedgeStore, this`vertexStore, this`faceStore
      ensures out == Fail(TypeError) || out == Pass
      ensures out.Fail? <==> !(0 <= Corner(indices, n, k, j) < |vs0|)
      ensures out.Pass? ==>
        var a := Arity(indices, n, k);
        halfedgeStore == Paired(LinksUpTo(indices, n, k) + FaceLinks(indices, n, k, j + 1) + Fresh(a - j - 1), p) &&
        vertexStore == VerticesAfter(vs0, indices, n, k, j + 1) &&
        faceStore == FacesDone(indices, n, setsQuad, k) + [FaceInProgress(indices, n, k, j + 1)]
    {
      var a, base := Arity(indices, n, k), Base(indices, n, k);
      var s := base + j;
      ghost var hs := LinksUpTo(indices, n, k) + FaceLinks(indices, n, k, j) + Fresh(a - j);
      var va := Corner(indices, n, k, j);
      assert halfedgeStore[s] == NewHalfedge by {
        assert hs[s] == Fresh(a - j)[0];
      }
      var h := halfedgeStore[s].(next := base + NextCorner(j, a), prev := base + PrevCorner(j, a), onBoundary := false);
      if !(0 <= va < |vertexStore|) {
        // the vertex lookup yields undefined, and setting its half-edge throws
        halfedgeStore := halfedgeStore[s := h];
        return Fail(TypeError);
      }
      // he.vertex = v; v.halfedge = he; he.face = f; f.halfedge = he
      assert h.(vertex := va, face := k) == CornerLinks(indices, n, k, j);
      LinkStep(indices, n, p, k, j);
      halfedgeStore := halfedgeStore[s := h.(vertex := va, face := k)];
      vertexStore := vertexStore[va := vertexStore[va].(halfedge := s)];
      LastUpdate(FacesDone(indices, n, setsQuad, k), FaceInProgress(indices, n, k, j), FaceInProgress(indices, n, k, j + 1));
      faceStore := faceStore[k := faceStore[k].(halfedge := s)];
      out := Pass;
    }

    /**
     * One corner of the face pass: link it, then pair it by the sorted key
     * of its side (the flag set to false on the way is already false). A key
     * met a third time fails with the non-manifold throw when `checks`.
     */
    method LinkCorner(ghost vs0: seq<Vertex>, checks: bool, ghost setsQuad: bool, indices: seq<int>, n: nat, k: nat, j: nat,
                      hasTwin: seq<bool>, existed: map<Key, int>, count: map<Key, int>, ghost p: PairState)
      returns (out: Outcome<BuildError>, hasTwin': seq<bool>, existed': map<Key, int>, count': map<Key, int>)
      requires InFace(vs0, setsQuad, indices, n, k, j, p, hasTwin, existed, count, Fields()) && j < Arity(indices, n, k)
      modifies this`halfedgeStore, this`edgeStore, this`faceStore, this`vertexStore, this`edges
      ensures !(0 <= Corner(indices, n, k, j) < |vs0|) <==> out == Fail(TypeError)
      ensures 0 <= Corner(indices, n, k, j) < |vs0| ==>
        var key := CornerKey(indices, n, k, j);
        (out.Fail? <==> checks && Step(p, key).count[key] > 2) &&
        (out.Fail? ==> out.error == Thrown(NonManifoldMessage))
      ensures out.Pass? ==>
        InFace(vs0, setsQuad, indices, n, k, j + 1, Step(p, CornerKey(indices, n, k, j)), hasTwin', existed', count', Fields())
    {
      var a, s := Arity(indices, n, k), Base(indices, n, k) + j;
      out := AttachCorner(vs0, setsQuad, indices, n, k, j, hasTwin, existed, count, p);
      if out.Fail? {
        return out, hasTwin, existed, count;
      }
      ghost var hs' := LinksUpTo(indices, n, k) + FaceLinks(indices, n, k, j + 1) + Fresh(a - j - 1);
      assert hs'[s] == CornerLinks(indices, n, k, j);
      var key := EdgeKey(Corner(indices, n, k, j), Corner(indices, n, k, NextCorner(j, a)));
      hasTwin', existed', count' := PairCorner(s, key, hasTwin, existed, count, hs', p);
      if checks && count'[key] > 2 {
        return Fail(Thrown(NonManifoldMessage)), hasTwin', existed', count';
      }
    }

    /** A new face and its fresh half-edges join the stores; nothing is linked yet. */
    method AllocateFace(ghost vs0: seq<Vertex>, ghost setsQuad: bool, indices: seq<int>, n: nat, k: nat,
                        hasTwin: seq<bool>, ghost existed: map<Key, int>, ghost count: map<Key, int>, ghost p: PairState)
      returns (hasTwin': seq<bool>)
      requires Strided(indices, n) && k < FaceCount(indices, n)
      requires BetweenFaces(vs0, setsQuad, indices, n, k, p, hasTwin, existed, count, Fields())
      modifies this`halfedgeStore, this`faceStore, this`halfedges, this`faces
      ensures InFace(vs0, setsQuad, indices, n, k, 0, p, hasTwin', existed, count, Fields())
    {
      var a, base := Arity(indices, n, k), Base(indices, n, k);
      // const f = new Face(); this.faces[k] = f; then one new Halfedge per corner
      faceStore := faceStore + [NewFace];
      faces := faces + [k];
      AllocStep(p, LinksUpTo(indices, n, k), a);
      assert LinksUpTo(indices, n, k) + FaceLinks(indices, n, k, 0) + Fresh(a) == LinksUpTo(indices, n, k) + Fresh(a);
      halfedgeStore := halfedgeStore + Fresh(a);
      halfedges := halfedges + seq(a, i => base + i);
      // an absent hasTwinHalfedge entry reads as false
      hasTwin' := hasTwin + seq(a, _ => false);
    }

    /** f.isQuad = isQuad, where isQuad is containsQuad and a fourth corner: face k is done. */
    method FinishFace(ghost vs0: seq<Vertex>, setsQuad: bool, indices: seq<int>, n: nat, k: nat,
                      ghost hasTwin: seq<bool>, ghost existed: map<Key, int>, ghost count: map<Key, int>, ghost p: PairState)
      requires Strided(indices, n) && k < FaceCount(indices, n)
      requires InFace(vs0, setsQuad, indices, n, k, Arity(indices, n, k), p, hasTwin, existed, count, Fields())
      modifies this`faceStore
      ensures BetweenFaces(vs0, setsQuad, indices, n, k + 1, p, hasTwin, existed, count, Fields())
    {
      var a := Arity(indices, n, k);
      FaceDoneStep(indices, n, setsQuad, k);
      LastUpdate(FacesDone(indices, n, setsQuad, k), FaceInProgress(indices, n, k, a), DoneFace(indices, n, setsQuad, k));
      faceStore := faceStore[k := faceStore[k].(isQuad := setsQuad && a == 4)];
    }

    /**
     * One corner of face k, with the keys met before it: on success the
     * keys, the bookkeeping and the stores move on by one corner.
     */
    method FaceCorner(ghost vs0: seq<Vertex>, checks: bool, ghost setsQuad: bool, indices: seq<int>, n: nat, k: nat, j: nat,
                      ghost keys: seq<Key>, hasTwin: seq<bool>, existed: map<Key, int>, count: map<Key, int>)
      returns (out: Outcome<BuildError>, hasTwin': seq<bool>, existed': map<Key, int>, count': map<Key, int>)
      requires CornersDone(vs0, checks, setsQuad, indices, n, k, j, keys, hasTwin, existed, count, Fields()) && j < Arity(indices, n, k)
      modifies this`halfedgeStore, this`edgeStore, this`faceStore, this`vertexStore, this`edges
      ensures out.Fail? ==>
        (out.error == TypeError && !FaceCornersInRange(indices, n, k, |vs0|)) ||
        (out.error == Thrown(NonManifoldMessage) && checks && !ManifoldUpTo(indices, n, k + 1))
      ensures out.Pass? ==>
        CornersDone(vs0, checks, setsQuad, indices, n, k, j + 1, keys + [CornerKey(indices, n, k, j)], hasTwin', existed', count', Fields())
    {
      var key := CornerKey(indices, n, k, j);
      out, hasTwin', existed', count' := LinkCorner(vs0, checks, setsQuad, indices, n, k, j, hasTwin, existed, count, Pairs(keys));
      KeyStep(indices, n, k, j, keys);
      if out.Fail? {
        if out.error == Thrown(NonManifoldMessage) {
          ThirdSide(indices, n, k, j, keys);
        } else {
          CornerOutOfRange(indices, n, k, j, |vs0|);
        }
        return;
      }
      FirstCornersSnoc(indices, n, k, j, |vs0|);
      if checks {
        AtMostTwiceSnoc(keys, key);
      }
    }

    /** The corners of face k, in order, after its allocation. */
    method LinkFace(ghost vs0: seq<Vertex>, checks: bool, ghost setsQuad: bool, indices: seq<int>, n: nat, k: nat,
                    hasTwin: seq<bool>, existed: map<Key, int>, count: map<Key, int>)
      returns (out: Outcome<BuildError>, hasTwin': seq<bool>, existed': map<Key, int>, count': map<Key, int>)
      requires Strided(indices, n) && k < FaceCount(indices, n)
      requires InFace(vs0, setsQuad, indices, n, k, 0, Pairs(AllKeys(indices, n, k)), hasTwin, existed, count, Fields())
      requires checks ==> ManifoldUpTo(indices, n, k)
      modifies this`halfedgeStore, this`edgeStore, this`faceStore, this`vertexStore, this`edges
      ensures out.Fail? ==>
        (out.error == TypeError && !FaceCornersInRange(indices, n, k, |vs0|)) ||
        (out.error == Thrown(NonManifoldMessage) && checks && !ManifoldUpTo(indices, n, k + 1))
      ensures out.Pass? ==>
        FaceCornersInRange(indices, n, k, |vs0|) && (checks ==> ManifoldUpTo(indices, n, k + 1)) &&
        InFace(vs0, setsQuad, indices, n, k, Arity(indices, n, k), Pairs(AllKeys(indices, n, k + 1)), hasTwin', existed', count', Fields())
    {
      var a := Arity(indices, n, k);
      ghost var keys := AllKeys(indices, n, k);
      hasTwin', existed', count' := hasTwin, existed, count;
      KeysPrefixStart(indices, n, k);
      var j := 0;
      while j < a
        invariant 0 <= j <= a
        invariant CornersDone(vs0, checks, setsQuad, indices, n, k, j, keys, hasTwin', existed', count', Fields())
      {
        out, hasTwin', existed', count' := FaceCorner(vs0, checks, setsQuad, indices, n, k, j, keys, hasTwin', existed', count');
        if out.Fail? {
          return;
        }
        keys := keys + [CornerKey(indices, n, k, j)];
        j := j + 1;
      }
      assert keys == AllKeys(indices, n, k + 1);
      out := Pass;
    }

    /**
     * One face of the face pass: allocate the face and its half-edges, link
     * and pair its corners in order, then record whether it is a quad (only
     * the simplifier's builder does; `setsQuad` is its `containsQuad`).
     */
    method BuildFace(ghost vs0: seq<Vertex>, checks: bool, setsQuad: bool, indices: seq<int>, n: nat, k: nat,
                     hasTwin: seq<bool>, existed: map<Key, int>, count: map<Key, int>)
      returns (out: Outcome<BuildError>, hasTwin': seq<bool>, existed': map<Key, int>, count': map<Key, int>)
      requires FacesPassed(vs0, checks, setsQuad, indices, n, k, hasTwin, existed, count, Fields()) && k < FaceCount(indices, n)
      modifies this`halfedgeStore, this`edgeStore, this`faceStore, this`vertexStore, this`halfedges, this`edges, this`faces
      ensures out.Fail? ==>
        (out.error == TypeError && !CornersInRange(indices, n, |vs0|)) ||
        (out.error == Thrown(NonManifoldMessage) && checks && !ManifoldInput(indices, n))
      ensures out.Pass? ==> FacesPassed(vs0, checks, setsQuad, indices, n, k + 1, hasTwin', existed', count', Fields())
    {
      var flags := AllocateFace(vs0, setsQuad, indices, n, k, hasTwin, existed, count, Pairs(AllKeys(indices, n, k)));
      out, hasTwin', existed', count' := LinkFace(vs0, checks, setsQuad, indices, n, k, flags, existed, count);
      if out.Fail? {
        if out.error == TypeError {
          FaceOutOfRange(indices, n, k, |vs0|);
        } else {
          NotManifoldUpTo(indices, n, k + 1);
        }
        return;
      }
      FinishFace(vs0, setsQuad, indices, n, k, hasTwin', existed', count', Pairs(AllKeys(indices, n, k + 1)));
      FacesInRangeSnoc(indices, n, k, |vs0|);
    }

    /**
     * The face pass: every face of the corner list, in order. It stops at
     * the first corner naming no vertex (TypeError) or, when `checks`, at
     * the first key met a third time; otherwise every face is built.
     */
    method FacePass(ghost vs0: seq<Vertex>, checks: bool, setsQuad: bool, indices: seq<int>, n: nat)
      returns (out: Outcome<BuildError>, hasTwin: seq<bool>, existed: map<Key, int>, count: map<Key, int>)
      requires Strided(indices, n) && vertexStore == vs0
      requires halfedgeStore == [] && edgeStore == [] && faceStore == []
      requires halfedges == [] && edges == [] && faces == []
      modifies this`halfedgeStore, this`edgeStore, this`faceStore, this`vertexStore, this`halfedges, this`edges, this`faces
      ensures out.Fail? ==>
        (out.error == TypeError && !CornersInRange(indices, n, |vs0|)) ||
        (out.error == Thrown(NonManifoldMessage) && checks && !ManifoldInput(indices, n))
      ensures out.Pass? ==> FacesClosed(vs0, checks, setsQuad, indices, n, hasTwin, Fields())
    {
      hasTwin, existed, count := [], map[], map[];
      PassStart(vs0, indices, n, setsQuad);
      var k := 0;
      while k < FaceCount(indices, n)
        invariant 0 <= k <= FaceCount(indices, n)
        invariant FacesPassed(vs0, checks, setsQuad, indices, n, k, hasTwin, existed, count, Fields())
      {
        out, hasTwin, existed, count := BuildFace(vs0, checks, setsQuad, indices, n, k, hasTwin, existed, count);
        if out.Fail? {
          return;
        }
        k := k + 1;
      }
      PassedStores(vs0, checks, setsQuad, indices, n, hasTwin, existed, count);
      out := Pass;
    }

    // -------------------------------------------------------------------
    // The boundary pass

    /**
     * The rotation that finds the half-edge after c on its hole: c.next,
     * then twin.next while the candidate is flagged. It stops at the first
     * unflagged candidate; where the source would rotate forever, the model
     * notices a candidate met before (the set `seen`) and reports Diverges.
     * The rotation reads only next pointers and flagged twins below lo,
     * which are those of hes0.
     */
    method NextFree(c: nat, hasTwin: seq<bool>, ghost lo: nat, ghost hes0: seq<Halfedge>) returns (r: Result<nat, BuildError>, ghost s: nat)
      requires LinksWithin(hes0, hasTwin, lo) && c < lo && lo <= |halfedgeStore| && SameLinks(hes0, halfedgeStore, hasTwin, lo)
      ensures r.Ok? ==> FirstFree(hes0, hasTwin, lo, c, s) && r.value == Rotation(hes0, hasTwin, lo, c, s)
      ensures r.Err? ==> r.error == Diverges && NeverFree(hes0, hasTwin, lo, c)
    {
      var next := halfedgeStore[c].next;
      var seen: set<int> := {};
      ghost var stepOf: map<int, nat> := map[];
      s := 0;
      while hasTwin[next]
        invariant next == Rotation(hes0, hasTwin, lo, c, s)
        invariant FlaggedBefore(hes0, hasTwin, lo, c, s)
        invariant forall x :: x in seen ==> x in stepOf && stepOf[x] < s && Rotation(hes0, hasTwin, lo, c, stepOf[x]) == x
        invariant seen <= Slots(0, lo)
        decreases Slots(0, lo) - seen
      {
        if next in seen {
          RepeatNeverFree(hes0, hasTwin, lo, c, stepOf[next], s);
          return Err(Diverges), s;
        }
        FlaggedBeforeStep(hes0, hasTwin, lo, c, s);
        seen := seen + {next};
        stepOf := stepOf[next := s];
        // nextHe = nextHe.twin.next
        assert Rotation(hes0, hasTwin, lo, c, s + 1) == hes0[hes0[next].twin].next;
        next := halfedgeStore[halfedgeStore[next].twin].next;
        s := s + 1;
      }
      r := Ok(next);
    }

    /**
     * The stores during the walk around the hole at i, which has visited
     * `walk` and stands at `current`: each visited half-edge has its
     * boundary twin appended, the virtual face (appended after fs) points
     * at the last of them, and the walk has followed the rotation of the
     * store hes the walk started from.
     */
    ghost predicate Walking(hes: seq<Halfedge>, flags: seq<bool>, fs: seq<Face>, i: nat, f: int,
                            walk: seq<int>, current: int, steps: seq<nat>)
      requires LinksWithin(hes, flags, |hes|)
      reads this
    {
      WalkState(hes, flags, i, walk, current, steps) && f == |fs| &&
      halfedgeStore == Walked(hes, walk, current, f) && halfedges == Ids(|halfedgeStore|) &&
      faceStore == fs + [OpenFace(hes, walk)]
    }

    /**
     * One step of the walk, from the store w: create the boundary
     * half-edge, find by rotation the next half-edge without a twin, and
     * make the new half-edge the twin of the current one and the virtual
     * face's half-edge.
     */
    method AddBoundaryHalfedge(f: int, hasTwin: seq<bool>, ghost hes: seq<Halfedge>, ghost fs: seq<Face>, ghost vf: Face,
                               ghost w: seq<Halfedge>, current: int)
      returns (r: Result<nat, BuildError>, ghost s: nat)
      requires LinksWithin(hes, hasTwin, |hes|) && 0 <= current < |hes| && SameEnds(hes, w)
      requires halfedgeStore == w && halfedges == Ids(|w|) && SameLinks(hes, w + [NewHalfedge], hasTwin, |hes|)
      requires f == |fs| && faceStore == fs + [vf]
      modifies this`halfedgeStore, this`halfedges, this`faceStore
      ensures r.Err? ==> r.error == Diverges && NeverFree(hes, hasTwin, |hes|, current)
      ensures r.Ok? ==> FirstFree(hes, hasTwin, |hes|, current, s) && Rotation(hes, hasTwin, |hes|, current, s) == r.value
      ensures r.Ok? ==>
        halfedgeStore == (w + [Halfedge(hes[r.value].vertex, hes[current].edge, f, -1, -1, current, -1, true)])[current := w[current].(twin := |w|)] &&
        halfedges == Ids(|halfedgeStore|) && faceStore == fs + [vf.(halfedge := |w|)]
    {
      // const boundaryHalfedge = new Halfedge(); this.halfedges[halfedgeIndex] = boundaryHalfedge
      var b := |halfedgeStore|;
      halfedgeStore := halfedgeStore + [NewHalfedge];
      halfedges := halfedges + [b];
      IdsSnoc(b);
      r, s := NextFree(current, hasTwin, |hes|, hes);
      if r.Err? {
        return;
      }
      var next := r.value;
      var bhe := halfedgeStore[b].(vertex := halfedgeStore[next].vertex, edge := halfedgeStore[current].edge,
                                   onBoundary := true, face := f, twin := current);
      assert halfedgeStore[next] == w[next] && halfedgeStore[current] == w[current];
      assert bhe == Halfedge(hes[next].vertex, hes[current].edge, f, -1, -1, current, -1, true);
      halfedgeStore := halfedgeStore[b := bhe];
      UpdateLast(w, NewHalfedge, bhe);
      UpdateLast(fs, vf, vf.(halfedge := b));
      faceStore := faceStore[f := faceStore[f].(halfedge := b)];
      assert halfedgeStore[current] == w[current];
      halfedgeStore := halfedgeStore[current := halfedgeStore[current].(twin := b)];
    }

    /**
     * The do-while walk around the hole at i: create a boundary half-edge,
     * find the next half-edge without a twin by rotation, make the new
     * half-edge its predecessor's twin, and go on until the walk is back at
     * i. Where the source would walk forever, the model reports Diverges:
     * a rotation that never stops, or a walk that meets again a half-edge
     * it visited after i.
     */
    method WalkHole(i: nat, f: int, hasTwin: seq<bool>, ghost hes: seq<Halfedge>, ghost fs: seq<Face>)
      returns (out: Result<seq<int>, BuildError>, ghost path: seq<int>, ghost steps: seq<nat>)
      requires LinksWithin(hes, hasTwin, |hes|)
      requires Walking(hes, hasTwin, fs, i, f, [], i, [])
      modifies this`halfedgeStore, this`halfedges, this`faceStore
      ensures out.Ok? ==>
        HoleWalk(hes, hasTwin, out.value, i) && path == out.value + [i] && Follows(hes, hasTwin, path, steps) &&
        halfedgeStore == Walked(hes, out.value, i, f) && halfedges == Ids(|halfedgeStore|) &&
        faceStore == fs + [OpenFace(hes, out.value)]
      ensures out.Err? ==> out.error == Diverges && Stuck(hes, hasTwin, i, path, steps)
    {
      var walk: seq<int> := [];
      var current: int := i;
      ghost var visited: set<int> := {};
      steps := [];
      while true
        invariant Walking(hes, hasTwin, fs, i, f, walk, current, steps)
        invariant visited <= Slots(0, |hes|) && forall x :: x in visited <==> x in walk
        decreases Slots(0, |hes|) - visited
      {
        WalkedSameLinks(hes, hasTwin, walk, current, f);
        WalkedEnds(hes, walk, current, f);
        ghost var vf := OpenFace(hes, walk);
        ghost var w := Walked(hes, walk, current, f);
        var r, s := AddBoundaryHalfedge(f, hasTwin, hes, fs, vf, w, current);
        if r.Err? {
          WalkSpins(hes, hasTwin, i, walk, current, steps);
          return Err(Diverges), walk + [current], steps;
        }
        var next := r.value;
        assert |w| == |hes| + |walk| && walk + [current] != [];
        WalkStep(hes, walk, current, next, f);
        assert halfedgeStore == Walked(hes, walk + [current], next, f);
        assert vf.(halfedge := |w|) == OpenFace(hes, walk + [current]);
        if next == i {
          WalkCloses(hes, hasTwin, i, walk, current, steps, s);
          out, path, steps := Ok(walk + [current]), walk + [current] + [i], steps + [s];
          return;
        }
        if next in walk + [current] {
          WalkRevisits(hes, hasTwin, i, walk, current, steps, next, s);
          return Err(Diverges), walk + [current] + [next], steps + [s];
        }
        WalkAdvances(hes, hasTwin, i, walk, current, steps, next, s);
        steps := steps + [s];
        walk := walk + [current];
        visited := visited + {current};
        current := next;
      }
    }

    /**
     * Links the loop of boundary half-edges `cycle` created by the walk:
     * each one's next is the one created before it and its prev the one
     * created after it (cyclically), and each one and its twin are flagged
     * as having a twin.
     */
    method LinkLoop(cycle: seq<int>, flags: seq<bool>, ghost hes: seq<Halfedge>, ghost walk: seq<int>, ghost f: int,
                    ghost flags0: seq<bool>)
      returns (hasTwin: seq<bool>)
      requires 1 <= |walk| && Below(walk, |hes|) && |flags0| == |hes| && cycle == Range(|hes|, |hes| + |walk|)
      requires halfedgeStore == Linking(hes, walk, f, 0) && flags == LinkingFlags(flags0, walk, 0)
      modifies this`halfedgeStore
      ensures halfedgeStore == Linking(hes, walk, f, |walk|) && hasTwin == LinkingFlags(flags0, walk, |walk|)
    {
      var m := |cycle|;
      hasTwin := flags;
      for j := 0 to m
        invariant halfedgeStore == Linking(hes, walk, f, j) && hasTwin == LinkingFlags(flags0, walk, j)
      {
        CyclicNeighbours(j, m);
        LinkingStep(hes, walk, f, j);
        LinkingFlagsStep(flags0, walk, j);
        var he := cycle[j];
        ghost var h := halfedgeStore[he];
        assert he == |hes| + j && h.twin == walk[j];
        // bcycle[j].next = bcycle[(j+n-1)%n]; bcycle[j].prev = bcycle[(j+1)%n]
        halfedgeStore := halfedgeStore[he := halfedgeStore[he].(next := cycle[(j + m - 1) % m], prev := cycle[(j + 1) % m])];
        hasTwin := hasTwin[he := true];
        hasTwin := hasTwin[halfedgeStore[he].twin := true];
      }
    }

    /**
     * The boundary pass before real half-edge i of the face pass's store
     * `base`: every hole met so far is closed by a loop of boundary
     * half-edges on a virtual face (loop q on face |fs0| + q, occupying
     * half-edges starts[q] .. starts[q+1]-1), and `boundaries` lists them
     * as the variant does.
     */
    ghost predicate BetweenHoles(variant: Variant, base: seq<Halfedge>, baseFlags: seq<bool>, fs0: seq<Face>,
                                 flags: seq<bool>, i: nat, starts: seq<nat>)
      reads this
    {
      HolesState(variant, base, baseFlags, fs0, halfedgeStore, faceStore, boundaries, flags, i, starts) &&
      halfedges == Ids(|halfedgeStore|)
    }

    /**
     * Closes the hole at the real half-edge i, which has no twin: a new
     * virtual face (listed in `boundaries` before the walk by nico and
     * changkun), the walk, then the rest in FinishHole.
     */
    method CloseHoleAt(variant: Variant, i: nat, flags: seq<bool>, ghost base: seq<Halfedge>, ghost baseFlags: seq<bool>,
                       ghost fs0: seq<Face>, ghost starts: seq<nat>)
      returns (out: Result<seq<bool>, BuildError>, ghost path: seq<int>, ghost steps: seq<nat>)
      requires BetweenHoles(variant, base, baseFlags, fs0, flags, i, starts) && i < |base| && !flags[i]
      requires LinksWithin(halfedgeStore, flags, |halfedgeStore|)
      modifies this`halfedgeStore, this`halfedges, this`faceStore, this`boundaries
      ensures out.Ok? ==> BetweenHoles(variant, base, baseFlags, fs0, out.value, i + 1, starts + [|halfedgeStore|])
      ensures out.Err? ==> out.error == Diverges && Stuck(old(halfedgeStore), flags, i, path, steps)
    {
      ghost var hes, fs, bs := halfedgeStore, faceStore, boundaries;
      var lo := |halfedgeStore|;
      // const f = new Face()
      var f := |faceStore|;
      faceStore := faceStore + [NewFace];
      if variant == Nico || variant == Changkun {
        boundaries := boundaries + [VirtualFace(f)];
      }
      WalkBegins(hes, flags, i);
      WalkStart(hes, i, f);
      var w;
      w, path, steps := WalkHole(i, f, flags, hes, fs);
      if w.Err? {
        return Err(Diverges), path, steps;
      }
      var hasTwin := FinishHole(variant, i, lo, f, flags, base, baseFlags, fs0, hes, fs, bs, starts, w.value);
      out := Ok(hasTwin);
    }

    /**
     * The rest of closing the hole at i once the walk is back at i:
     * krasnor lists the loop of boundary half-edges, then the loop is
     * linked.
     */
    method FinishHole(variant: Variant, i: nat, lo: nat, f: int, flags: seq<bool>, ghost base: seq<Halfedge>, ghost baseFlags: seq<bool>,
                      ghost fs0: seq<Face>, ghost hes: seq<Halfedge>, ghost fs: seq<Face>, ghost bs: seq<Boundary>,
                      ghost starts: seq<nat>, walk: seq<int>)
      returns (hasTwin: seq<bool>)
      requires HolesState(variant, base, baseFlags, fs0, hes, fs, bs, flags, i, starts) && i < |base| && HoleWalk(hes, flags, walk, i)
      requires lo == |hes| && f == |fs| && Below(walk + [i], |hes|)
      requires halfedgeStore == Walked(hes, walk, i, f) && faceStore == fs + [OpenFace(hes, walk)] && halfedges == Ids(|halfedgeStore|)
      requires boundaries == if variant == Nico || variant == Changkun then bs + [VirtualFace(f)] else bs
      modifies this`halfedgeStore, this`boundaries
      ensures BetweenHoles(variant, base, baseFlags, fs0, hasTwin, i + 1, starts + [|halfedgeStore|])
    {
      var m := |walk|;
      // the boundary half-edges the walk created, in order
      var cycle := Range(lo, lo + m);
      if variant == Krasnor {
        boundaries := boundaries + [Cycle(cycle)];
      }
      HoleStep(variant, base, baseFlags, fs0, hes, fs, bs, flags, i, starts, walk);
      LinkingStart(hes, walk, f);
      LinkingFlagsStart(flags, walk);
      hasTwin := LinkLoop(cycle, flags + seq(m, _ => false), hes, walk, f, flags);
      assert variant != Torantie ==> Entry(variant, lo, lo + m, f) == (if variant == Krasnor then Cycle(cycle) else VirtualFace(f));
      assert boundaries == Pushed(variant, bs, lo, lo + m, f);
      assert |halfedgeStore| == lo + m;
    }

    /**
     * One iteration of the boundary pass: real half-edge i is passed over
     * when it has a twin, and otherwise starts a hole that is closed.
     */
    method VisitHalfedge(variant: Variant, i: nat, hasTwin: seq<bool>, ghost base: seq<Halfedge>, ghost baseFlags: seq<bool>,
                         ghost fs0: seq<Face>, ghost starts: seq<nat>)
      returns (out: Result<seq<bool>, BuildError>, ghost starts': seq<nat>, ghost path: seq<int>, ghost steps: seq<nat>)
      requires BetweenHoles(variant, base, baseFlags, fs0, hasTwin, i, starts) && i < |base|
      modifies this`halfedgeStore, this`halfedges, this`faceStore, this`boundaries
      ensures out.Ok? ==> BetweenHoles(variant, base, baseFlags, fs0, out.value, i + 1, starts')
      ensures out.Err? ==>
        out.error == Diverges && Between(base, baseFlags, old(halfedgeStore), hasTwin, i) &&
        LinksWithin(old(halfedgeStore), hasTwin, |old(halfedgeStore)|) && Stuck(old(halfedgeStore), hasTwin, i, path, steps)
    {
      starts', path, steps := starts, [], [];
      // const he = this.halfedges[i]; if (hasTwin.get(he)) continue
      var he := halfedges[i];
      if hasTwin[he] {
        HolesSkip(variant, base, baseFlags, fs0, halfedgeStore, faceStore, boundaries, hasTwin, i, starts);
        return Ok(hasTwin), starts', path, steps;
      }
      BetweenLinks(base, baseFlags, halfedgeStore, hasTwin, i);
      out, path, steps := CloseHoleAt(variant, i, hasTwin, base, baseFlags, fs0, starts);
      starts' := starts + [|halfedgeStore|];
    }

    /**
     * The boundary pass over the real half-edges 0 .. realCount-1 of the
     * store `base` the face pass built: each one without a twin starts a
     * hole, which is closed by a loop of boundary half-edges on a new
     * virtual face. Afterwards every half-edge has a twin, next and prev
     * are inverse, and the loops are listed in `boundaries` as the variant
     * does. Where the source would loop forever the pass stops with
     * Diverges, at the half-edge stuckAt whose walk never returns.
     */
    method BoundaryPass(variant: Variant, realCount: nat, flags: seq<bool>,
                        ghost base: seq<Halfedge>, ghost baseFlags: seq<bool>, ghost fs0: seq<Face>)
      returns (out: Result<seq<bool>, BuildError>, ghost starts: seq<nat>,
               ghost stuckAt: nat, ghost hesAt: seq<Halfedge>, ghost flagsAt: seq<bool>, ghost path: seq<int>, ghost steps: seq<nat>)
      requires Ready(base, baseFlags) && realCount == |base| && flags == baseFlags
      requires halfedgeStore == base && faceStore == fs0 && boundaries == [] && halfedges == Ids(|base|)
      modifies this`halfedgeStore, this`halfedges, this`faceStore, this`boundaries
      ensures out.Ok? ==>
        |base| <= |halfedgeStore| == |out.value| &&
        (forall u :: 0 <= u < |halfedgeStore| ==> ClosedAt(base, halfedgeStore, out.value, u)) &&
        Loops(halfedgeStore, fs0, faceStore, starts, |base|) &&
        boundaries == BoundaryEntries(variant, starts, |fs0|) && halfedges == Ids(|halfedgeStore|)
      ensures out.Err? ==>
        out.error == Diverges && stuckAt < |base| && Between(base, baseFlags, hesAt, flagsAt, stuckAt) &&
        LinksWithin(hesAt, flagsAt, |hesAt|) && Stuck(hesAt, flagsAt, stuckAt, path, steps)
    {
      var hasTwin := flags;
      starts, stuckAt, hesAt, flagsAt, path, steps := [|base|], 0, [], [], [], [];
      HolesStart(variant, base, baseFlags, fs0);
      var i := 0;
      while i < realCount
        invariant i <= realCount && BetweenHoles(variant, base, baseFlags, fs0, hasTwin, i, starts)
      {
        ghost var hes := halfedgeStore;
        var r;
        r, starts, path, steps := VisitHalfedge(variant, i, hasTwin, base, baseFlags, fs0, starts);
        if r.Err? {
          return Err(Diverges), starts, i, hes, hasTwin, path, steps;
        }
        hasTwin := r.value;
        i := i + 1;
      }
      Closed(base, baseFlags, halfedgeStore, hasTwin);
      out := Ok(hasTwin);
    }
  
    // -------------------------------------------------------------------
    // The vertex loop, the index pass and the copies of the vertices

    /**
     * The vertex loop: one vertex per position, in order, with no half-edge
     * and no index yet. The parameterisation builder also keeps a second
     * vertex per position in vertsOrig.
     */
    method CreateVertices(variant: Variant, positions: seq<Quadric.Vec3>)
      requires vertexStore == [] && vertices == [] && vertsOrig == []
      modifies this`vertexStore, this`vertices, this`vertsOrig
      ensures vertexStore == NewVertices(positions) && vertices == Ids(|positions|)
      ensures vertsOrig == if variant == Nico then NewVertices(positions) else []
    {
      for i := 0 to |positions|
        invariant vertexStore == NewVertices(positions[..i]) && vertices == Ids(i)
        invariant vertsOrig == if variant == Nico then NewVertices(positions[..i]) else []
      {
        NewVerticesSnoc(positions, i);
        IdsSnoc(i);
        vertexStore := vertexStore + [Vertex(positions[i], -1, -1)];
        vertices := vertices + [i];
        if variant == Nico {
          vertsOrig := vertsOrig + [Vertex(positions[i], -1, -1)];
        }
      }
      assert positions[..|positions|] == positions;
    }

    /** `vertices.forEach(v => v.idx = index++)`: each listed vertex gets its position in the array. */
    method IndexVertices()
      requires Distinct(vertices) && Below(vertices, |vertexStore|)
      modifies this`vertexStore
      ensures |vertexStore| == old(|vertexStore|)
      ensures forall k :: 0 <= k < |vertices| ==> vertexStore[vertices[k]] == old(vertexStore[vertices[k]]).(idx := k)
      ensures forall u :: 0 <= u < |vertexStore| && u !in vertices ==> vertexStore[u] == old(vertexStore[u])
    {
      for i := 0 to |vertices|
        invariant |vertexStore| == old(|vertexStore|)
        invariant forall k :: 0 <= k < i ==> vertexStore[vertices[k]] == old(vertexStore[vertices[k]]).(idx := k)
        invariant forall u :: 0 <= u < |vertexStore| && u !in vertices[..i] ==> vertexStore[u] == old(vertexStore[u])
      {
        var v := vertices[i];
        vertexStore := vertexStore[v := vertexStore[v].(idx := i)];
        assert vertices[..i + 1] == vertices[..i] + [v];
      }
      assert vertices[..|vertices|] == vertices;
    }

    /** The same for the edges. */
    method IndexEdges()
      requires Distinct(edges) && Below(edges, |edgeStore|)
      modifies this`edgeStore
      ensures |edgeStore| == old(|edgeStore|)
      ensures forall k :: 0 <= k < |edges| ==> edgeStore[edges[k]] == old(edgeStore[edges[k]]).(idx := k)
      ensures forall u :: 0 <= u < |edgeStore| && u !in edges ==> edgeStore[u] == old(edgeStore[u])
    {
      for i := 0 to |edges|
        invariant |edgeStore| == old(|edgeStore|)
        invariant forall k :: 0 <= k < i ==> edgeStore[edges[k]] == old(edgeStore[edges[k]]).(idx := k)
        invariant forall u :: 0 <= u < |edgeStore| && u !in edges[..i] ==> edgeStore[u] == old(edgeStore[u])
      {
        var e := edges[i];
        edgeStore := edgeStore[e := edgeStore[e].(idx := i)];
        assert edges[..i + 1] == edges[..i] + [e];
      }
      assert edges[..|edges|] == edges;
    }

    /** The same for the faces of `faces` (virtual faces are not among them). */
    method IndexFaces()
      requires Distinct(faces) && Below(faces, |faceStore|)
      modifies this`faceStore
      ensures |faceStore| == old(|faceStore|)
      ensures forall k :: 0 <= k < |faces| ==> faceStore[faces[k]] == old(faceStore[faces[k]]).(idx := k)
      ensures forall u :: 0 <= u < |faceStore| && u !in faces ==> faceStore[u] == old(faceStore[u])
    {
      for i := 0 to |faces|
        invariant |faceStore| == old(|faceStore|)
        invariant forall k :: 0 <= k < i ==> faceStore[faces[k]] == old(faceStore[faces[k]]).(idx := k)
        invariant forall u :: 0 <= u < |faceStore| && u !in faces[..i] ==> faceStore[u] == old(faceStore[u])
      {
        var f := faces[i];
        faceStore := faceStore[f := faceStore[f].(idx := i)];
        assert faces[..i + 1] == faces[..i] + [f];
      }
      assert faces[..|faces|] == faces;
    }

    /** The same for the half-edges. */
    method IndexHalfedges()
      requires Distinct(halfedges) && Below(halfedges, |halfedgeStore|)
      modifies this`halfedgeStore
      ensures |halfedgeStore| == old(|halfedgeStore|)
      ensures forall k :: 0 <= k < |halfedges| ==> halfedgeStore[halfedges[k]] == old(halfedgeStore[halfedges[k]]).(idx := k)
      ensures forall u :: 0 <= u < |halfedgeStore| && u !in halfedges ==> halfedgeStore[u] == old(halfedgeStore[u])
    {
      for i := 0 to |halfedges|
        invariant |halfedgeStore| == old(|halfedgeStore|)
        invariant forall k :: 0 <= k < i ==> halfedgeStore[halfedges[k]] == old(halfedgeStore[halfedges[k]]).(idx := k)
        invariant forall u :: 0 <= u < |halfedgeStore| && u !in halfedges[..i] ==> halfedgeStore[u] == old(halfedgeStore[u])
      {
        var h := halfedges[i];
        halfedgeStore := halfedgeStore[h := halfedgeStore[h].(idx := i)];
        assert halfedges[..i + 1] == halfedges[..i] + [h];
      }
      assert halfedges[..|halfedges|] == halfedges;
    }

    /** The remeshing builder numbers its virtual faces by their place in `boundaries`. */
    method IndexBoundaries()
      requires AllVirtual(boundaries)
      requires Distinct(VirtualFaces(boundaries)) && Below(VirtualFaces(boundaries), |faceStore|)
      modifies this`faceStore
      ensures |faceStore| == old(|faceStore|)
      ensures forall k :: 0 <= k < |boundaries| ==> faceStore[boundaries[k].face] == old(faceStore[boundaries[k].face]).(idx := k)
      ensures forall u :: 0 <= u < |faceStore| && u !in VirtualFaces(boundaries) ==> faceStore[u] == old(faceStore[u])
    {
      ghost var vf := VirtualFaces(boundaries);
      for i := 0 to |boundaries|
        invariant |faceStore| == old(|faceStore|)
        invariant forall k :: 0 <= k < i ==> faceStore[vf[k]] == old(faceStore[vf[k]]).(idx := k)
        invariant forall u :: 0 <= u < |faceStore| && u !in vf[..i] ==> faceStore[u] == old(faceStore[u])
      {
        var f := boundaries[i].face;
        faceStore := faceStore[f := faceStore[f].(idx := i)];
        assert vf[..i + 1] == vf[..i] + [f];
      }
      assert vf[..|vf|] == vf;
    }

    /** The parameterisation builder numbers the kept vertices by their place in vertsOrig. */
    method IndexVertsOrig()
      modifies this`vertsOrig
      ensures |vertsOrig| == old(|vertsOrig|)
      ensures forall k :: 0 <= k < |vertsOrig| ==> vertsOrig[k] == old(vertsOrig[k]).(idx := k)
    {
      for i := 0 to |vertsOrig|
        invariant |vertsOrig| == old(|vertsOrig|)
        invariant forall k :: 0 <= k < |vertsOrig| ==> vertsOrig[k] == old(vertsOrig[k]).(idx := if k < i then k else old(vertsOrig[k]).idx)
      {
        vertsOrig := vertsOrig[i := vertsOrig[i].(idx := i)];
      }
    }

    /**
     * The smoothing builder's copy, made after the index pass: one vertex
     * per vertex of the mesh, with the same index, the same half-edge and
     * a new position vector holding the same coordinates.
     */
    method CopyVertices()
      requires Below(vertices, |vertexStore|)
      modifies this`vertsOrig
      ensures |vertsOrig| == old(|vertsOrig|) + |vertices| && vertsOrig[..old(|vertsOrig|)] == old(vertsOrig)
      ensures forall k :: 0 <= k < |vertices| ==> vertsOrig[old(|vertsOrig|) + k] == vertexStore[vertices[k]]
    {
      for i := 0 to |vertices|
        invariant |vertsOrig| == old(|vertsOrig|) + i && vertsOrig[..old(|vertsOrig|)] == old(vertsOrig)
        invariant forall k :: 0 <= k < i ==> vertsOrig[old(|vertsOrig|) + k] == vertexStore[vertices[k]]
      {
        var v := vertexStore[vertices[i]];
        vertsOrig := vertsOrig + [Vertex(v.position, v.halfedge, v.idx)];
      }
    }

    /**
     * The first step of the smoothing: vertex i of `vertices` takes back the
     * coordinates of vertsOrig[i], for every i below |vertsOrig|. A copy
     * longer than the vertex array reads past its end (TypeError) after
     * resetting every vertex.
     */
    method ResetPositions() returns (out: Outcome<BuildError>)
      requires Distinct(vertices) && Below(vertices, |vertexStore|)
      modifies this`vertexStore
      ensures out.Fail? <==> |vertsOrig| > |vertices|
      ensures out.Fail? ==> out.error == TypeError
      ensures |vertexStore| == old(|vertexStore|)
      ensures forall k :: 0 <= k < |vertices| && k < |vertsOrig| ==>
        vertexStore[vertices[k]] == old(vertexStore[vertices[k]]).(position := vertsOrig[k].position)
      ensures forall k :: 0 <= k < |vertices| && |vertsOrig| <= k ==> vertexStore[vertices[k]] == old(vertexStore[vertices[k]])
      ensures forall u :: 0 <= u < |vertexStore| && u !in vertices ==> vertexStore[u] == old(vertexStore[u])
    {
      var i := 0;
      while i < |vertsOrig|
        invariant i <= |vertsOrig| && i <= |vertices|
        invariant |vertexStore| == old(|vertexStore|)
        invariant forall k :: 0 <= k < i ==> vertexStore[vertices[k]] == old(vertexStore[vertices[k]]).(position := vertsOrig[k].position)
        invariant forall u :: 0 <= u < |vertexStore| && u !in vertices[..i] ==> vertexStore[u] == old(vertexStore[u])
      {
        if i == |vertices| {
          return Fail(TypeError);
        }
        var v := vertices[i];
        vertexStore := vertexStore[v := vertexStore[v].(position := vertsOrig[i].position)];
        assert vertices[..i + 1] == vertices[..i] + [v];
        i := i + 1;
      }
      out := Pass;
      assert forall k :: 0 <= k < |vertices| && |vertsOrig| <= k ==> vertices[k] !in vertices[..i];
    }
  
    // -------------------------------------------------------------------
    // The whole construction


    /** The vertex half of the index pass, when `vertices` lists the whole store in order. */
    method NumberVertices(ghost vs: seq<Vertex>)
      requires vertexStore == vs && vertices == Ids(|vs|)
      modifies this`vertexStore
      ensures VerticesNumbered(vs, vertexStore)
    {
      IdsDistinct(|vs|);
      IndexVertices();
      forall v | 0 <= v < |vs|
        ensures vertexStore[v] == vs[v].(idx := v)
      {
        assert vertices[v] == v;
      }
    }

    /** The same for the edges. */
    method NumberEdges(ghost es: seq<Edge>)
      requires edgeStore == es && edges == Ids(|es|)
      modifies this`edgeStore
      ensures EdgesNumbered(es, edgeStore)
    {
      IdsDistinct(|es|);
      IndexEdges();
      forall e | 0 <= e < |es|
        ensures edgeStore[e] == es[e].(idx := e)
      {
        assert edges[e] == e;
      }
    }

    /** The same for the half-edges. */
    method NumberHalfedges(ghost hs: seq<Halfedge>)
      requires halfedgeStore == hs && halfedges == Ids(|hs|)
      modifies this`halfedgeStore
      ensures HalfedgesNumbered(hs, halfedgeStore)
    {
      IdsDistinct(|hs|);
      IndexHalfedges();
      forall u | 0 <= u < |hs|
        ensures halfedgeStore[u] == hs[u].(idx := u)
      {
        assert halfedges[u] == u;
      }
    }

    /**
     * The faces of `faces` (the first nf of the store) get their places;
     * the remeshing builder then numbers its virtual faces by their places
     * in `boundaries`.
     */
    method NumberFaces(variant: Variant, ghost nf: nat, ghost fs: seq<Face>)
      requires faceStore == fs && faces == Ids(nf) && nf <= |fs|
      requires variant == Changkun ==> AllVirtual(boundaries) && VirtualFaces(boundaries) == Range(nf, |fs|)
      modifies this`faceStore
      ensures FacesNumbered(variant, nf, fs, faceStore)
    {
      IdsDistinct(nf);
      IndexFaces();
      ghost var fs1 := faceStore;
      forall f | 0 <= f < |fs|
        ensures fs1[f] == (if f < nf then fs[f].(idx := f) else fs[f])
      {
        if f < nf {
          assert faces[f] == f;
        } else {
          assert f !in faces;
        }
      }
      if variant == Changkun {
        IndexBoundaries();
        forall f | 0 <= f < |fs|
          ensures faceStore[f] == NumberedFace(variant, nf, f, fs[f])
        {
          if f >= nf {
            assert VirtualFaces(boundaries)[f - nf] == f;
          } else {
            assert f !in VirtualFaces(boundaries);
          }
        }
      }
    }

    /** The smoothing builder's copy of the numbered vertices: `vertsOrig` becomes the vertex store. */
    method KeepCopies()
      requires vertsOrig == [] && vertices == Ids(|vertexStore|)
      modifies this`vertsOrig
      ensures vertsOrig == vertexStore
    {
      CopyVertices();
      forall v | 0 <= v < |vertexStore|
        ensures vertsOrig[v] == vertexStore[v]
      {
        assert vertices[v] == v;
      }
    }

    /**
     * The index pass at the end of each builder: `vertices`, (the
     * parameterisation builder's vertsOrig,) `edges`, `faces`,
     * `halfedges` and (the remeshing builder's) `boundaries` are numbered
     * in order; then the smoothing builder copies the vertices.
     */
    method NumberAll(variant: Variant, ghost nf: nat,
                     ghost vs: seq<Vertex>, ghost es: seq<Edge>, ghost fs: seq<Face>, ghost hs: seq<Halfedge>, ghost vo: seq<Vertex>)
      requires vertexStore == vs && edgeStore == es && faceStore == fs && halfedgeStore == hs && vertsOrig == vo
      requires vertices == Ids(|vs|) && edges == Ids(|es|) && halfedges == Ids(|hs|)
      requires faces == Ids(nf) && nf <= |fs|
      requires variant == Changkun ==> AllVirtual(boundaries) && VirtualFaces(boundaries) == Range(nf, |fs|)
      requires variant == Torantie ==> vo == []
      modifies this`vertexStore, this`edgeStore, this`faceStore, this`halfedgeStore, this`vertsOrig
      ensures Numbered(variant, nf, vs, es, fs, hs, vo, Fields())
    {
      NumberVertices(vs);
      if variant == Nico {
        IndexVertsOrig();
      }
      NumberEdges(es);
      NumberFaces(variant, nf, fs);
      NumberHalfedges(hs);
      if variant == Torantie {
        KeepCopies();
      }
    }

    /** The boundary pass after a face pass that succeeded, and what it leaves before numbering. */
    method ClosePass(variant: Variant, indices: seq<int>, n: nat, hasTwin: seq<bool>)
      returns (out: Outcome<BuildError>, ghost hes: seq<Halfedge>, ghost flags: seq<bool>, ghost fs: seq<Face>, ghost starts: seq<nat>,
               ghost stuckAt: nat, ghost hesAt: seq<Halfedge>, ghost flagsAt: seq<bool>, ghost path: seq<int>, ghost steps: seq<nat>)
      requires Strided(indices, n)
      requires halfedgeStore == Passed(indices, n)
      requires hasTwin == Flags(Pairs(AllKeys(indices, n, FaceCount(indices, n))), RealHalfedgeCount(indices, n))
      requires faceStore == FacesDone(indices, n, variant == Krasnor, FaceCount(indices, n)) && boundaries == []
      requires halfedges == Ids(|halfedgeStore|) && faces == Ids(FaceCount(indices, n))
      requires vertices == Ids(|vertexStore|) && edges == Ids(|edgeStore|)
      modifies this`halfedgeStore, this`halfedges, this`faceStore, this`boundaries
      ensures out.Pass? ==>
        Linked(variant, indices, n, hes, flags, fs, starts) && Listed(variant, FaceCount(indices, n), starts, Fields()) &&
        hes == halfedgeStore && fs == faceStore
      ensures out.Fail? ==>
        out.error == Diverges && stuckAt < RealHalfedgeCount(indices, n) && LinksWithin(hesAt, flagsAt, |hesAt|) &&
        Stuck(hesAt, flagsAt, stuckAt, path, steps)
    {
      hes, flags, fs, starts := [], [], [], [];
      PassedReady(indices, n);
      var r;
      r, starts, stuckAt, hesAt, flagsAt, path, steps :=
        BoundaryPass(variant, |halfedgeStore|, hasTwin, halfedgeStore, hasTwin, faceStore);
      if r.Err? {
        return Fail(Diverges), hes, flags, fs, starts, stuckAt, hesAt, flagsAt, path, steps;
      }
      hes, flags, fs := halfedgeStore, r.value, faceStore;
      out := Pass;
    }

    /** What a face pass that succeeded leaves, spelled out store by store. */
    lemma PassedStores(vs0: seq<Vertex>, checks: bool, setsQuad: bool, indices: seq<int>, n: nat,
                       hasTwin: seq<bool>, existed: map<Key, int>, count: map<Key, int>)
      requires Strided(indices, n)
      requires FacesPassed(vs0, checks, setsQuad, indices, n, FaceCount(indices, n), hasTwin, existed, count, Fields())
      ensures FacesClosed(vs0, checks, setsQuad, indices, n, hasTwin, Fields())
    {
    }

    /**
     * The rest of a builder's constructor once the face pass has succeeded:
     * the boundary pass over the real half-edges, then the index pass.
     */
    method CloseAndNumber(variant: Variant, ghost containsQuad: bool, indices: seq<int>, n: nat, hasTwin: seq<bool>,
                          ghost positions: seq<Quadric.Vec3>)
      returns (out: Outcome<BuildError>, ghost hes: seq<Halfedge>, ghost flags: seq<bool>, ghost fs: seq<Face>, ghost starts: seq<nat>,
               ghost stuckAt: nat, ghost hesAt: seq<Halfedge>, ghost flagsAt: seq<bool>, ghost path: seq<int>, ghost steps: seq<nat>)
      requires n == StrideOf(variant, containsQuad)
      requires FacesClosed(NewVertices(positions), ChecksManifold(variant), variant == Krasnor, indices, n, hasTwin, Fields())
      requires vertices == Ids(|positions|) && boundaries == [] && vertsOrig == (if variant == Nico then NewVertices(positions) else [])
      requires isQuadMesh == (variant == Krasnor && containsQuad)
      modifies this`halfedgeStore, this`halfedges, this`faceStore, this`boundaries, this`vertexStore, this`edgeStore, this`vertsOrig
      ensures out.Pass? ==> Built(variant, containsQuad, indices, positions, hes, flags, fs, starts, Fields())
      ensures out.Fail? ==>
        out.error == Diverges && stuckAt < RealHalfedgeCount(indices, n) && LinksWithin(hesAt, flagsAt, |hesAt|) &&
        Stuck(hesAt, flagsAt, stuckAt, path, steps)
    {
      ghost var F := FaceCount(indices, n);
      out, hes, flags, fs, starts, stuckAt, hesAt, flagsAt, path, steps := ClosePass(variant, indices, n, hasTwin);
      if out.Fail? {
        return;
      }
      if variant == Changkun {
        VirtualEntries(starts, F);
      }
      NumberAll(variant, F, VerticesAfter(NewVertices(positions), indices, n, F, 0), EdgeRecords(Pairs(AllKeys(indices, n, F))),
                fs, hes, if variant == Nico then NewVertices(positions) else []);
      out := Pass;
    }

    /**
     * A builder's constructor after reading the file: the corner list
     * (0-based, triangles padded with -1 when the simplifier's reader has
     * seen a quad) and the positions. It fails with RangeError exactly when
     * the corner list does not split into whole faces (the face array's
     * length `indices.length / n` is not an integer), with TypeError when a
     * corner names no vertex, with the non-manifold message when the builder
     * checks for it and a side occurs a third time, and with Diverges where
     * a boundary walk would never return.
     */
    method Build(variant: Variant, containsQuad: bool, indices: seq<int>, positions: seq<Quadric.Vec3>)
      returns (out: Outcome<BuildError>, ghost hes: seq<Halfedge>, ghost flags: seq<bool>, ghost fs: seq<Face>, ghost starts: seq<nat>,
               ghost stuckAt: nat, ghost hesAt: seq<Halfedge>, ghost flagsAt: seq<bool>, ghost path: seq<int>, ghost steps: seq<nat>)
      requires halfedgeStore == [] && edgeStore == [] && faceStore == [] && vertexStore == []
      requires vertices == [] && edges == [] && faces == [] && halfedges == [] && boundaries == [] && vertsOrig == []
      requires !isQuadMesh
      modifies this
      ensures out.Pass? ==> Built(variant, containsQuad, indices, positions, hes, flags, fs, starts, Fields())
      ensures out == Fail(RangeError) <==> !Strided(indices, StrideOf(variant, containsQuad))
      ensures out == Fail(TypeError) ==> !CornersInRange(indices, StrideOf(variant, containsQuad), |positions|)
      ensures out.Fail? && out.error.Thrown? ==>
        out.error.message == NonManifoldMessage && ChecksManifold(variant) && !ManifoldInput(indices, StrideOf(variant, containsQuad))
      ensures out == Fail(Diverges) ==>
        Strided(indices, StrideOf(variant, containsQuad)) &&
        stuckAt < RealHalfedgeCount(indices, StrideOf(variant, containsQuad)) && LinksWithin(hesAt, flagsAt, |hesAt|) &&
        Stuck(hesAt, flagsAt, stuckAt, path, steps)
    {
      hes, flags, fs, starts, stuckAt, hesAt, flagsAt, path, steps := [], [], [], [], 0, [], [], [], [];
      var n := StrideOf(variant, containsQuad);
      if variant == Krasnor && containsQuad {
        isQuadMesh := true;
      }
      StridedIffDivisible(|indices|, n);
      if |indices| % n != 0 {
        return Fail(RangeError), hes, flags, fs, starts, stuckAt, hesAt, flagsAt, path, steps;
      }
      out, hes, flags, fs, starts, stuckAt, hesAt, flagsAt, path, steps := BuildStrided(variant, containsQuad, indices, n, positions);
    }

    /** The construction once the face array could be sized: the vertex loop, the face pass, the boundary pass and the index pass. */
    method BuildStrided(variant: Variant, ghost containsQuad: bool, indices: seq<int>, n: nat, positions: seq<Quadric.Vec3>)
      returns (out: Outcome<BuildError>, ghost hes: seq<Halfedge>, ghost flags: seq<bool>, ghost fs: seq<Face>, ghost starts: seq<nat>,
               ghost stuckAt: nat, ghost hesAt: seq<Halfedge>, ghost flagsAt: seq<bool>, ghost path: seq<int>, ghost steps: seq<nat>)
      requires n == StrideOf(variant, containsQuad) && Strided(indices, n)
      requires halfedgeStore == [] && edgeStore == [] && faceStore == [] && vertexStore == []
      requires vertices == [] && edges == [] && faces == [] && halfedges == [] && boundaries == [] && vertsOrig == []
      requires isQuadMesh == (variant == Krasnor && containsQuad)
      modifies this`halfedgeStore, this`edgeStore, this`faceStore, this`vertexStore, this`halfedges, this`edges, this`faces
      modifies this`vertices, this`boundaries, this`vertsOrig
      ensures out.Pass? ==> Built(variant, containsQuad, indices, positions, hes, flags, fs, starts, Fields())
      ensures out.Fail? ==> out.error != RangeError
      ensures out == Fail(TypeError) ==> !CornersInRange(indices, n, |positions|)
      ensures out.Fail? && out.error.Thrown? ==>
        out.error.message == NonManifoldMessage && ChecksManifold(variant) && !ManifoldInput(indices, n)
      ensures out == Fail(Diverges) ==>
        stuckAt < RealHalfedgeCount(indices, n) && LinksWithin(hesAt, flagsAt, |hesAt|) && Stuck(hesAt, flagsAt, stuckAt, path, steps)
    {
      hes, flags, fs, starts, stuckAt, hesAt, flagsAt, path, steps := [], [], [], [], 0, [], [], [], [];
      CreateVertices(variant, positions);
      var hasTwin, existed, count;
      out, hasTwin, existed, count := FacePass(NewVertices(positions), ChecksManifold(variant), variant == Krasnor, indices, n);
      if out.Fail? {
        return;
      }
      out, hes, flags, fs, starts, stuckAt, hesAt, flagsAt, path, steps :=
        CloseAndNumber(variant, containsQuad, indices, n, hasTwin, positions);
    }

    // -------------------------------------------------------------------
    // simplify: the edge-collapse decimation

    /** The redirect callback over one ring: every half-edge visited gets vertex v. */
    method Redirect(ring: seq<int>, v: int)
      requires forall j :: 0 <= j < |ring| ==> 0 <= ring[j] < |halfedgeStore|
      modifies this`halfedgeStore
      ensures halfedgeStore == Redirected(old(halfedgeStore), ring, v)
    {
      var i := 0;
      while i < |ring|
        invariant 0 <= i <= |ring|
        invariant halfedgeStore == Redirected(old(halfedgeStore), ring[..i], v)
      {
        assert ring[..i + 1][..i] == ring[..i];
        halfedgeStore := halfedgeStore[ring[i] := halfedgeStore[ring[i]].(vertex := v)];
        i := i + 1;
      }
      assert ring[..i] == ring;
    }

    /** `p.halfedges(hf => hf.vertex = v)`: vertex p's ring, as Vertex.halfedges visits it, redirected to v. */
    method RedirectRing(p: int, v: int) returns (out: Outcome<BuildError>)
      modifies this`halfedgeStore
      ensures out.Fail? <==> Ring(old(halfedgeStore), vertexStore, p).Err?
      ensures out.Fail? ==> out.error == Ring(old(halfedgeStore), vertexStore, p).error
      ensures out.Pass? ==> halfedgeStore == Redirected(old(halfedgeStore), Ring(old(halfedgeStore), vertexStore, p).value, v)
    {
      if !(0 <= p < |vertexStore|) {
        return Fail(TypeError);
      }
      var ring := Traversal.VertexHalfedges(halfedgeStore, vertexStore, p);
      if ring.Err? {
        return Fail(ring.error);
      }
      Redirect(ring.value, v);
      return Pass;
    }

    /** The splice's first writes (see Decimation.Relinked). */
    method Relink(w: Wing, nextEdge: int) returns (out: Outcome<BuildError>)
      requires Traversal.Present(halfedgeStore, w.l)
      modifies this`halfedgeStore, this`edgeStore, this`vertexStore
      ensures out == Done(Relinked(old(Fields()), w, nextEdge))
      ensures out.Pass? ==> Fields() == Relinked(old(Fields()), w, nextEdge).value
    {
      edgeStore := edgeStore + [Edge(w.lt, nextEdge)];
      var c := halfedgeStore[w.l].vertex;
      if !(0 <= c < |vertexStore|) {
        return Fail(TypeError);
      }
      vertexStore := vertexStore[c := vertexStore[c].(halfedge := w.rt)];
      if !(0 <= w.lt < |halfedgeStore|) {
        return Fail(TypeError);
      }
      halfedgeStore := halfedgeStore[w.lt := halfedgeStore[w.lt].(twin := w.rt)];
      if !(0 <= w.rt < |halfedgeStore|) {
        return Fail(TypeError);
      }
      halfedgeStore := halfedgeStore[w.rt := halfedgeStore[w.rt].(twin := w.lt)];
      return Pass;
    }

    /** The splice's edge writes (see Decimation.Reedged). */
    method Reedge(w: Wing, ne: int) returns (out: Outcome<BuildError>)
      requires Traversal.Present(halfedgeStore, w.lt) && Traversal.Present(halfedgeStore, w.rt)
      modifies this`halfedgeStore, this`edgeStore
      ensures out == Done(Reedged(old(Fields()), w, ne))
      ensures out.Pass? ==> Fields() == Reedged(old(Fields()), w, ne).value
    {
      var el := halfedgeStore[w.lt].edge;
      if !(0 <= el < |edgeStore|) {
        return Fail(TypeError);
      }
      edgeStore := edgeStore[el := edgeStore[el].(idx := -1)];
      var er := halfedgeStore[w.rt].edge;
      if !(0 <= er < |edgeStore|) {
        return Fail(TypeError);
      }
      edgeStore := edgeStore[er := edgeStore[er].(idx := -1)];
      halfedgeStore := halfedgeStore[w.lt := halfedgeStore[w.lt].(edge := ne)];
      halfedgeStore := halfedgeStore[w.rt := halfedgeStore[w.rt].(edge := ne)];
      return Pass;
    }

    /** The splice's tombstones (see Decimation.Retired). */
    method Retire(w: Wing, ne: int) returns (out: Outcome<BuildError>)
      requires Traversal.Present(halfedgeStore, w.l) && Traversal.Present(halfedgeStore, w.r) && 0 <= w.f < |faceStore|
      modifies this`halfedgeStore, this`edgeStore, this`faceStore, this`edges
      ensures out == Done(Retired(old(Fields()), w, ne))
      ensures out.Pass? ==> Fields() == Retired(old(Fields()), w, ne).value
    {
      halfedgeStore := halfedgeStore[w.l := halfedgeStore[w.l].(idx := -1)];
      halfedgeStore := halfedgeStore[w.r := halfedgeStore[w.r].(idx := -1)];
      if !(0 <= w.le < |edgeStore|) {
        return Fail(TypeError);
      }
      edgeStore := edgeStore[w.le := edgeStore[w.le].(idx := -1)];
      if !(0 <= w.re < |edgeStore|) {
        return Fail(TypeError);
      }
      edgeStore := edgeStore[w.re := edgeStore[w.re].(idx := -1)];
      faceStore := faceStore[w.f := faceStore[w.f].(idx := -1)];
      edges := edges + [ne];
      return Pass;
    }

    /** The splice of the face of half-edge ih: `if (f != null) { ... }` of one side (see Decimation.Splice). */
    method SpliceFace(ih: int, nextEdge: int) returns (out: Outcome<BuildError>)
      requires Traversal.Present(halfedgeStore, ih) && HasFace(Fields(), ih)
      modifies this`halfedgeStore, this`edgeStore, this`vertexStore, this`faceStore, this`edges
      ensures out == Done(Splice(old(Fields()), ih, nextEdge))
      ensures out.Pass? ==> Fields() == Splice(old(Fields()), ih, nextEdge).value
    {
      var w := WingOf(Fields(), ih);
      if w.Err? {
        return Fail(w.error);
      }
      var ne := |edgeStore|;
      out := Relink(w.value, nextEdge);
      if out.Fail? {
        return;
      }
      out := Reedge(w.value, ne);
      if out.Fail? {
        return;
      }
      out := Retire(w.value, ne);
    }

    /** The collapse's last writes (see Decimation.Tombstoned). */
    method Tombstone(ends: Ends, nv: int) returns (out: Outcome<BuildError>)
      requires 0 <= ends.p1 < |vertexStore| && 0 <= ends.p2 < |vertexStore|
      requires 0 <= ends.edge < |edgeStore| && Traversal.Present(halfedgeStore, ends.hf)
      modifies this`vertexStore, this`edgeStore, this`halfedgeStore, this`vertices
      ensures out == Done(Tombstoned(old(Fields()), ends, nv))
      ensures out.Pass? ==> Fields() == Tombstoned(old(Fields()), ends, nv).value
    {
      vertexStore := vertexStore[ends.p1 := vertexStore[ends.p1].(idx := -1)];
      vertexStore := vertexStore[ends.p2 := vertexStore[ends.p2].(idx := -1)];
      edgeStore := edgeStore[ends.edge := edgeStore[ends.edge].(idx := -1)];
      halfedgeStore := halfedgeStore[ends.hf := halfedgeStore[ends.hf].(idx := -1)];
      var t := halfedgeStore[ends.hf].twin;
      if !(0 <= t < |halfedgeStore|) {
        return Fail(TypeError);
      }
      halfedgeStore := halfedgeStore[t := halfedgeStore[t].(idx := -1)];
      vertices := vertices + [nv];
      return Pass;
    }

    /** One side of the collapse: `if (f != null)` the face of half-edge ih is spliced out and counted. */
    method MergeSide(ih: int, nextEdge: int) returns (r: Result<nat, BuildError>)
      requires Traversal.Present(halfedgeStore, ih)
      modifies this`halfedgeStore, this`edgeStore, this`vertexStore, this`faceStore, this`edges
      ensures r == Removed(Side(old(Fields()), ih, nextEdge))
      ensures r.Ok? ==> Fields() == Side(old(Fields()), ih, nextEdge).value.0
    {
      var f := halfedgeStore[ih].face;
      if !(0 <= f < |faceStore|) {
        return Ok(0);
      }
      var out := SpliceFace(ih, nextEdge);
      if out.Fail? {
        return Err(out.error);
      }
      return Ok(1);
    }

    /** The first half of a collapse (see Decimation.Opened): the new vertex and the redirected rings. */
    method OpenEdge(pop: Pop, nextVertex: int) returns (r: Result<Ends, BuildError>)
      requires 0 <= pop.pair < |edgeStore|
      modifies this`halfedgeStore, this`vertexStore
      ensures r.Err? <==> Opened(old(Fields()), pop, nextVertex).Err?
      ensures r.Err? ==> r.error == Opened(old(Fields()), pop, nextVertex).error
      ensures r.Ok? ==> (Fields(), r.value) == Opened(old(Fields()), pop, nextVertex).value
    {
      var ends := EndsOf(Fields(), pop.pair);
      if ends.Err? {
        return Err(ends.error);
      }
      var en := ends.value;
      var nvx := NewVertexOf(halfedgeStore, en.hf, pop.mergePoint, nextVertex);
      if nvx.Err? {
        return Err(nvx.error);
      }
      if !(0 <= en.p1 < |vertexStore|) || !(0 <= en.p2 < |vertexStore|) {
        return Err(TypeError);
      }
      var nv := |vertexStore|;
      vertexStore := vertexStore + [nvx.value];
      var out := RedirectRing(en.p1, nv);
      if out.Fail? {
        return Err(out.error);
      }
      out := RedirectRing(en.p2, nv);
      if out.Fail? {
        return Err(out.error);
      }
      return Ok(en);
    }

    /** Both sides of a collapse (see Decimation.Sides). */
    method MergeSides(hf: int, tw: int, nextEdge: int) returns (r: Result<nat, BuildError>)
      requires Traversal.Present(halfedgeStore, hf) && Traversal.Present(halfedgeStore, tw)
      modifies this`halfedgeStore, this`edgeStore, this`vertexStore, this`faceStore, this`edges
      ensures r == Removed(Sides(old(Fields()), hf, tw, nextEdge))
      ensures r.Ok? ==> Fields() == Sides(old(Fields()), hf, tw, nextEdge).value.0
    {
      var s1 := MergeSide(hf, nextEdge);
      if s1.Err? {
        return Err(s1.error);
      }
      var s2 := MergeSide(tw, nextEdge + s1.value);
      if s2.Err? {
        return Err(s2.error);
      }
      return Ok(s1.value + s2.value);
    }

    /** The second half of a collapse (see Decimation.Sewn): both sides spliced, then the tombstones. */
    method SewEdge(en: Ends, nv: int, nextEdge: int) returns (r: Result<nat, BuildError>)
      requires Traversal.Present(halfedgeStore, en.hf) && Traversal.Present(halfedgeStore, en.tw)
      requires 0 <= en.p1 < |vertexStore| && 0 <= en.p2 < |vertexStore| && 0 <= en.edge < |edgeStore|
      modifies this`halfedgeStore, this`edgeStore, this`vertexStore, this`faceStore, this`edges, this`vertices
      ensures r == Removed(Sewn(old(Fields()), en, nv, nextEdge))
      ensures r.Ok? ==> Fields() == Sewn(old(Fields()), en, nv, nextEdge).value.0
    {
      r := MergeSides(en.hf, en.tw, nextEdge);
      if r.Err? {
        return;
      }
      var out := Tombstone(en, nv);
      if out.Fail? {
        return Err(out.error);
      }
    }

    /**
     * One collapse of the live edge pop.pair (see Decimation.Collapse): the
     * result is the number of faces counted as removed.
     */
    method CollapseEdge(pop: Pop, nextVertex: int, nextEdge: int) returns (r: Result<nat, BuildError>)
      requires 0 <= pop.pair < |edgeStore|
      modifies this`halfedgeStore, this`edgeStore, this`vertexStore, this`faceStore, this`edges, this`vertices
      ensures r == Removed(Collapse(old(Fields()), pop, nextVertex, nextEdge))
      ensures r.Ok? ==> Fields() == Collapse(old(Fields()), pop, nextVertex, nextEdge).value.0
    {
      var nv := |vertexStore|;
      var en := OpenEdge(pop, nextVertex);
      if en.Err? {
        return Err(en.error);
      }
      r := SewEdge(en.value, nv, nextEdge);
    }

    /** The four filters of the cleanup (see Decimation.Filtered). */
    method Filter() returns (out: Outcome<BuildError>)
      modifies this`edges, this`halfedges, this`vertices, this`faces
      ensures out == Done(Filtered(old(Fields())))
      ensures out.Pass? ==> Fields() == Filtered(old(Fields())).value
    {
      var ke := KeepLive(edgeStore, EdgeIdx, edges);
      var kh := KeepLive(halfedgeStore, HalfedgeIdx, halfedges);
      var kv := KeepLive(vertexStore, VertexIdx, vertices);
      var kf := KeepLive(faceStore, FaceIdx, faces);
      if ke.Err? || kh.Err? || kv.Err? || kf.Err? {
        return Fail(TypeError);
      }
      ghost var m := Fields();
      edges, halfedges, vertices, faces := ke.value, kh.value, kv.value, kf.value;
      assert Fields() == m.(edges := ke.value, halfedges := kh.value, vertices := kv.value, faces := kf.value);
      return Pass;
    }

    /** The four renumbering loops of the cleanup (see Decimation.Reindexed). */
    method Reindex()
      requires InStores(Fields())
      modifies this`halfedgeStore, this`edgeStore, this`vertexStore, this`faceStore
      ensures Fields() == Reindexed(old(Fields()))
    {
      edgeStore := Renumber(edgeStore, EdgeNumbered, edges);
      halfedgeStore := Renumber(halfedgeStore, HalfedgeNumbered, halfedges);
      vertexStore := Renumber(vertexStore, VertexNumbered, vertices);
      faceStore := Renumber(faceStore, FaceNumbered, faces);
    }

    /** The cleanup after the loop (see Decimation.Compacted). */
    method Compact() returns (out: Outcome<BuildError>)
      modifies this`halfedgeStore, this`edgeStore, this`vertexStore, this`faceStore
      modifies this`edges, this`halfedges, this`vertices, this`faces
      ensures out == Done(Compacted(old(Fields())))
      ensures out.Pass? ==> Fields() == Compacted(old(Fields())).value
    {
      out := Filter();
      if out.Pass? {
        Reindex();
      }
    }

    /** One pass of the loop body on a popped live edge: the collapse, as the loop sees it. */
    method DecimateStep(pops: seq<Pop>, i: nat, count: int, goal: int, nextVertex: int, nextEdge: int)
      returns (r: Result<nat, BuildError>)
      requires i < |pops| && count > goal && count > 0
      requires 0 <= pops[i].pair < |edgeStore| && edgeStore[pops[i].pair].idx != -1
      modifies this`halfedgeStore, this`edgeStore, this`vertexStore, this`faceStore, this`edges, this`vertices
      ensures r.Err? ==> DecimateFrom(old(Fields()), pops, i, count, goal, nextVertex, nextEdge) == Err(r.error)
      ensures r.Ok? ==> (DecimateFrom(old(Fields()), pops, i, count, goal, nextVertex, nextEdge)
                     == DecimateFrom(Fields(), pops, i + 1, count - r.value, goal, nextVertex + 1, nextEdge + r.value))
    {
      ghost var before := Fields();
      DecimateLive(before, pops, i, count, goal, nextVertex, nextEdge);
      ghost var c := Collapse(before, pops[i], nextVertex, nextEdge);
      r := CollapseEdge(pops[i], nextVertex, nextEdge);
      DecimateStepped(before, pops, i, count, goal, nextVertex, nextEdge, c, Fields(), r);
    }

    /**
     * simplify(reduceRatio), with the pairs the priority queue yields given
     * as pops: collapse the popped live edges until the face count reaches
     * the goal or 0, then compact.
     */
    method Simplify(ratio: real, pops: seq<Pop>) returns (out: Outcome<BuildError>)
      modifies this`halfedgeStore, this`edgeStore, this`vertexStore, this`faceStore
      modifies this`edges, this`halfedges, this`vertices, this`faces
      ensures out == Done(Simplified(old(Fields()), ratio, pops))
      ensures out.Pass? ==> Fields() == Simplified(old(Fields()), ratio, pops).value
    {
      ghost var result := DecimateFrom(Fields(), pops, 0, |faces|, Goal(|faces|, ratio), |vertices|, |edges|);
      var count := |faces|;
      var goal := Goal(count, ratio);
      var nextVertex, nextEdge := |vertices|, |edges|;
      var i := 0;
      while count > goal && count > 0
        invariant i <= |pops|
        invariant DecimateFrom(Fields(), pops, i, count, goal, nextVertex, nextEdge) == result
        decreases |pops| - i
      {
        if i == |pops| {
          return Fail(TypeError);
        }
        var p := pops[i];
        if !(0 <= p.pair < |edgeStore|) {
          return Fail(TypeError);
        }
        if edgeStore[p.pair].idx == -1 {
          DecimateSkips(Fields(), pops, i, count, goal, nextVertex, nextEdge);
          i := i + 1;
          continue;
        }
        var removed := DecimateStep(pops, i, count, goal, nextVertex, nextEdge);
        if removed.Err? {
          return Fail(removed.error);
        }
        count := count - removed.value;
        nextVertex, nextEdge := nextVertex + 1, nextEdge + removed.value;
        i := i + 1;
        if count == 0 {
          break;
        }
      }
      out := Compact();
    }
  }
}
