/**
 * The records of a half-edge mesh and the states the face pass moves
 * through.
 *
 * Every object is a record in a store (one sequence per kind); a reference
 * is a position in that store and -1 stands for null. `idx` -1 is both the
 * records' initial value and, in the simplifier, the tombstone.
 *
 * The face pass visits the corners of faces 0, 1, ... in order; after the
 * first t corners its stores are a function of the corner list and of the
 * pairing bookkeeping `Pairs` of the first t side keys. Those functions are
 * defined here, together with what they imply about the finished mesh.
 */
module Store {
  import opened Wrappers
  import opened Connectivity
  import opened Pairing
  import Quadric

  datatype Halfedge = Halfedge(vertex: int, edge: int, face: int, prev: int, next: int, twin: int, idx: int, onBoundary: bool)
  datatype Edge = Edge(halfedge: int, idx: int)
  datatype Face = Face(halfedge: int, idx: int, isQuad: bool)
  datatype Vertex = Vertex(position: Quadric.Vec3, halfedge: int, idx: int)

  /** A freshly constructed half-edge: every reference null, idx -1, not on a boundary. */
  const NewHalfedge := Halfedge(-1, -1, -1, -1, -1, -1, -1, false)
  const NewFace := Face(-1, -1, false)

  /** The four builders differ in the manifold check, the boundary list and the vertex copy. */
  datatype Variant = Krasnor | Torantie | Nico | Changkun

  /** Only the simplifier's and the parameteriser's builders throw on a third half-edge per key. */
  predicate ChecksManifold(variant: Variant)
  {
    variant == Krasnor || variant == Nico
  }

  const NonManifoldMessage := "the mesh contains non-manifold edges"

  /**
   * Why a construction stops: the explicit throw, a property read through an
   * undefined reference, an array length that is not an integer, or a
   * boundary walk that would not come back to its start.
   */
  datatype BuildError = Thrown(message: string) | TypeError | RangeError | Diverges

  /** One entry of `boundaries`: the simplifier keeps the loop's half-edges, two builders the virtual face. */
  datatype Boundary = Cycle(loop: seq<int>) | VirtualFace(face: int)

  /** The references 0 .. n-1, the content of an array built in allocation order. */
  function Ids(n: nat): (r: seq<int>)
    ensures |r| == n
    ensures forall i :: 0 <= i < n ==> r[i] == i
  {
    seq(n, i => i)
  }

  // ---------------------------------------------------------------------
  // The keys the face pass meets

  /** The sorted keys of the sides of faces 0 .. k-1, in the order the face pass meets them. */
  function AllKeys(indices: seq<int>, n: nat, k: nat): (keys: seq<(int, int)>)
    requires Strided(indices, n) && k <= FaceCount(indices, n)
    ensures |keys| == Base(indices, n, k)
  {
    if k == 0 then []
    else AllKeys(indices, n, k - 1) + CornerKeys(indices, n, k - 1, Arity(indices, n, k - 1))
  }

  /** The keys of the first j sides of face k. */
  function CornerKeys(indices: seq<int>, n: nat, k: nat, j: nat): (keys: seq<(int, int)>)
    requires Strided(indices, n) && k < FaceCount(indices, n) && j <= Arity(indices, n, k)
    ensures |keys| == j
  {
    if j == 0 then [] else CornerKeys(indices, n, k, j - 1) + [CornerKey(indices, n, k, j - 1)]
  }

  lemma {:induction false} CornerKeysAt(indices: seq<int>, n: nat, k: nat, j: nat, i: nat)
    requires Strided(indices, n) && k < FaceCount(indices, n) && i < j <= Arity(indices, n, k)
    ensures CornerKeys(indices, n, k, j)[i] == CornerKey(indices, n, k, i)
  {
    if i < j - 1 {
      CornerKeysAt(indices, n, k, j - 1, i);
    }
  }

  /** Slot Base(k) + j of the key sequence holds the key of corner j of face k. */
  lemma {:induction false} AllKeysAt(indices: seq<int>, n: nat, kk: nat, k: nat, j: nat)
    requires Strided(indices, n) && k < kk <= FaceCount(indices, n) && j < Arity(indices, n, k)
    ensures Base(indices, n, k) + j < |AllKeys(indices, n, kk)|
    ensures AllKeys(indices, n, kk)[Base(indices, n, k) + j] == CornerKey(indices, n, k, j)
  {
    if k == kk - 1 {
      CornerKeysAt(indices, n, k, Arity(indices, n, k), j);
    } else {
      BaseMonotone(indices, n, k, kk - 1);
      AllKeysAt(indices, n, kk - 1, k, j);
    }
  }

  /** No key occurs more than twice. */
  ghost predicate AtMostTwice(keys: seq<Key>)
  {
    forall key :: multiset(keys)[key] <= 2
  }

  /** No sorted key is shared by more than two sides of faces 0 .. k-1. */
  ghost predicate ManifoldUpTo(indices: seq<int>, n: nat, k: nat)
    requires Strided(indices, n) && k <= FaceCount(indices, n)
  {
    AtMostTwice(AllKeys(indices, n, k))
  }

  /** No sorted key is shared by more than two face sides. */
  ghost predicate ManifoldInput(indices: seq<int>, n: nat)
    requires Strided(indices, n)
  {
    ManifoldUpTo(indices, n, FaceCount(indices, n))
  }

  /** The multiplicities in a prefix never exceed those in the whole. */
  lemma PrefixMultiplicity<T>(s: seq<T>, i: nat, x: T)
    requires i <= |s|
    ensures multiset(s[..i])[x] <= multiset(s)[x]
  {
    assert s == s[..i] + s[i..];
  }

  lemma {:induction false} CornerKeysPrefix(indices: seq<int>, n: nat, k: nat, j: nat, j2: nat)
    requires Strided(indices, n) && k < FaceCount(indices, n) && j <= j2 <= Arity(indices, n, k)
    ensures CornerKeys(indices, n, k, j2)[..j] == CornerKeys(indices, n, k, j)
    decreases j2
  {
    if j < j2 {
      CornerKeysPrefix(indices, n, k, j, j2 - 1);
      assert CornerKeys(indices, n, k, j2)[..j2 - 1] == CornerKeys(indices, n, k, j2 - 1);
    }
  }

  lemma {:induction false} AllKeysPrefix(indices: seq<int>, n: nat, k: nat, k2: nat)
    requires Strided(indices, n) && k <= k2 <= FaceCount(indices, n)
    ensures Base(indices, n, k) <= |AllKeys(indices, n, k2)|
    ensures AllKeys(indices, n, k2)[..Base(indices, n, k)] == AllKeys(indices, n, k)
    decreases k2
  {
    if k < k2 {
      AllKeysPrefix(indices, n, k, k2 - 1);
      var prev := AllKeys(indices, n, k2 - 1);
      assert AllKeys(indices, n, k2)[..|prev|] == prev;
    }
  }

  /** A key shared by three sides of the first k faces is shared by three sides of the whole list. */
  lemma ManifoldUpToPrefix(indices: seq<int>, n: nat, k: nat)
    requires Strided(indices, n) && k <= FaceCount(indices, n)
    requires ManifoldInput(indices, n)
    ensures ManifoldUpTo(indices, n, k)
  {
    var all := AllKeys(indices, n, FaceCount(indices, n));
    AllKeysPrefix(indices, n, k, FaceCount(indices, n));
    forall key
      ensures multiset(AllKeys(indices, n, k))[key] <= 2
    {
      PrefixMultiplicity(all, Base(indices, n, k), key);
    }
  }

  /** The first j corners of face k name vertices among the nv. */
  predicate FirstCornersInRange(indices: seq<int>, n: nat, k: nat, j: nat, nv: nat)
    requires Strided(indices, n) && k < FaceCount(indices, n) && j <= Arity(indices, n, k)
  {
    forall j2 :: 0 <= j2 < j ==> 0 <= Corner(indices, n, k, j2) < nv
  }

  /** Every corner of face k names one of the nv vertices. */
  predicate FaceCornersInRange(indices: seq<int>, n: nat, k: nat, nv: nat)
    requires Strided(indices, n) && k < FaceCount(indices, n)
  {
    FirstCornersInRange(indices, n, k, Arity(indices, n, k), nv)
  }

  lemma FirstCornersSnoc(indices: seq<int>, n: nat, k: nat, j: nat, nv: nat)
    requires Strided(indices, n) && k < FaceCount(indices, n) && j < Arity(indices, n, k)
    requires FirstCornersInRange(indices, n, k, j, nv) && 0 <= Corner(indices, n, k, j) < nv
    ensures FirstCornersInRange(indices, n, k, j + 1, nv)
  {
  }

  /** A corner out of range is one the whole face does not pass. */
  lemma CornerOutOfRange(indices: seq<int>, n: nat, k: nat, j: nat, nv: nat)
    requires Strided(indices, n) && k < FaceCount(indices, n) && j < Arity(indices, n, k)
    requires !(0 <= Corner(indices, n, k, j) < nv)
    ensures !FaceCornersInRange(indices, n, k, nv)
  {
  }

  /** The corners of faces 0 .. k-1 name vertices among the nv. */
  predicate FacesInRange(indices: seq<int>, n: nat, k: nat, nv: nat)
    requires Strided(indices, n) && k <= FaceCount(indices, n)
  {
    forall k2 :: 0 <= k2 < k ==> FaceCornersInRange(indices, n, k2, nv)
  }

  /** Every corner names one of the nv vertices. */
  predicate CornersInRange(indices: seq<int>, n: nat, nv: nat)
    requires Strided(indices, n)
  {
    FacesInRange(indices, n, FaceCount(indices, n), nv)
  }

  lemma FacesInRangeSnoc(indices: seq<int>, n: nat, k: nat, nv: nat)
    requires Strided(indices, n) && k < FaceCount(indices, n)
    requires FacesInRange(indices, n, k, nv) && FaceCornersInRange(indices, n, k, nv)
    ensures FacesInRange(indices, n, k + 1, nv)
  {
  }

  /** A face with a corner out of range leaves the whole list out of range. */
  lemma FaceOutOfRange(indices: seq<int>, n: nat, k: nat, nv: nat)
    requires Strided(indices, n) && k < FaceCount(indices, n)
    requires !FaceCornersInRange(indices, n, k, nv)
    ensures !CornersInRange(indices, n, nv)
  {
  }

  /** Three sides of faces 0 .. k sharing a key are three sides of the whole list sharing it. */
  lemma NotManifoldUpTo(indices: seq<int>, n: nat, k: nat)
    requires Strided(indices, n) && k <= FaceCount(indices, n)
    requires !ManifoldUpTo(indices, n, k)
    ensures !ManifoldInput(indices, n)
  {
    if ManifoldInput(indices, n) {
      ManifoldUpToPrefix(indices, n, k);
    }
  }

  // ---------------------------------------------------------------------
  // The stores during the face pass

  /** The slots of face k end no later than the last slot of the face pass. */
  lemma SlotsBound(indices: seq<int>, n: nat, k: nat)
    requires Strided(indices, n) && k < FaceCount(indices, n)
    ensures Base(indices, n, k) + Arity(indices, n, k) <= RealHalfedgeCount(indices, n)
  {
    BaseMonotone(indices, n, k, FaceCount(indices, n));
  }

  /** Half-edge Base(k) + j once linked: it leaves corner j of face k and runs inside the face's cycle. */
  function CornerLinks(indices: seq<int>, n: nat, k: nat, j: nat): (h: Halfedge)
    requires Strided(indices, n) && k < FaceCount(indices, n) && j < Arity(indices, n, k)
    ensures h.twin == -1 && h.edge == -1 && h.idx == -1 && !h.onBoundary
  {
    var a, base := Arity(indices, n, k), Base(indices, n, k);
    Halfedge(Corner(indices, n, k, j), -1, k, base + PrevCorner(j, a), base + NextCorner(j, a), -1, -1, false)
  }

  /** The first j half-edges of face k, linked. */
  function FaceLinks(indices: seq<int>, n: nat, k: nat, j: nat): (hs: seq<Halfedge>)
    requires Strided(indices, n) && k < FaceCount(indices, n) && j <= Arity(indices, n, k)
    ensures |hs| == j
  {
    seq(j, c requires 0 <= c < j => CornerLinks(indices, n, k, c))
  }

  /** The half-edges of faces 0 .. k-1, linked, in slot order. */
  function LinksUpTo(indices: seq<int>, n: nat, k: nat): (hs: seq<Halfedge>)
    requires Strided(indices, n) && k <= FaceCount(indices, n)
    ensures |hs| == Base(indices, n, k)
  {
    if k == 0 then [] else LinksUpTo(indices, n, k - 1) + FaceLinks(indices, n, k - 1, Arity(indices, n, k - 1))
  }

  /** Half-edges allocated and not yet linked. */
  function Fresh(a: nat): (hs: seq<Halfedge>)
    ensures |hs| == a
  {
    seq(a, _ => NewHalfedge)
  }

  /** The pairing's twins and edges laid over the first |p.twin| half-edges. */
  function Paired(hs: seq<Halfedge>, p: PairState): (r: seq<Halfedge>)
    requires |p.edge| == |p.twin| <= |hs|
    ensures |r| == |hs|
  {
    seq(|hs|, u requires 0 <= u < |hs| =>
      if u < |p.twin| then hs[u].(twin := p.twin[u], edge := p.edge[u]) else hs[u])
  }

  /** The `hasTwinHalfedge` flags of `size` allocated half-edges: false until paired. */
  function Flags(p: PairState, size: nat): (f: seq<bool>)
    requires |p.hasTwin| <= size
    ensures |f| == size
  {
    seq(size, u requires 0 <= u < size => u < |p.hasTwin| && p.hasTwin[u])
  }

  /** One edge record per key met, pointing at the key's first half-edge. */
  function EdgeRecords(p: PairState): (eds: seq<Edge>)
    ensures |eds| == |p.edgeHalfedge|
  {
    seq(|p.edgeHalfedge|, e requires 0 <= e < |p.edgeHalfedge| => Edge(p.edgeHalfedge[e], -1))
  }

  /**
   * The vertex store after the corners of faces 0 .. k-1 and the first j
   * corners of face k: each corner's vertex points at the last half-edge
   * leaving it (a corner naming no vertex stops the pass before this).
   */
  function VerticesAfter(vs: seq<Vertex>, indices: seq<int>, n: nat, k: nat, j: nat): (r: seq<Vertex>)
    requires Strided(indices, n) && k <= FaceCount(indices, n)
    requires k < FaceCount(indices, n) ==> j <= Arity(indices, n, k)
    requires k == FaceCount(indices, n) ==> j == 0
    ensures |r| == |vs|
    decreases k, j
  {
    if j > 0 then
      var r0 := VerticesAfter(vs, indices, n, k, j - 1);
      var v := Corner(indices, n, k, j - 1);
      if 0 <= v < |r0| then r0[v := r0[v].(halfedge := Base(indices, n, k) + j - 1)] else r0
    else if k == 0 then vs
    else VerticesAfter(vs, indices, n, k - 1, Arity(indices, n, k - 1))
  }

  /** Face k when the pass is done with it: its half-edge is its last corner's. */
  function DoneFace(indices: seq<int>, n: nat, setsQuad: bool, k: nat): (f: Face)
    requires Strided(indices, n) && k < FaceCount(indices, n)
    ensures f.idx == -1 && f.halfedge == Base(indices, n, k) + Arity(indices, n, k) - 1
  {
    var a := Arity(indices, n, k);
    Face(Base(indices, n, k) + a - 1, -1, setsQuad && a == 4)
  }

  /** The face store after faces 0 .. k-1. */
  function FacesDone(indices: seq<int>, n: nat, setsQuad: bool, k: nat): (fs: seq<Face>)
    requires Strided(indices, n) && k <= FaceCount(indices, n)
    ensures |fs| == k
  {
    seq(k, k2 requires 0 <= k2 < k => DoneFace(indices, n, setsQuad, k2))
  }

  /** Face k while its corners are linked: it points at the last corner linked so far. */
  function FaceInProgress(indices: seq<int>, n: nat, k: nat, j: nat): Face
    requires Strided(indices, n) && k <= FaceCount(indices, n)
  {
    Face(if j == 0 then -1 else Base(indices, n, k) + j - 1, -1, false)
  }

  /** Before the first face every store of the face pass is empty and the vertices are untouched. */
  lemma PassStart(vs: seq<Vertex>, indices: seq<int>, n: nat, setsQuad: bool)
    requires Strided(indices, n)
    ensures Pairs(AllKeys(indices, n, 0)) == Empty && Base(indices, n, 0) == 0
    ensures Paired(LinksUpTo(indices, n, 0), Empty) == [] && Flags(Empty, 0) == [] && EdgeRecords(Empty) == []
    ensures VerticesAfter(vs, indices, n, 0, 0) == vs && FacesDone(indices, n, setsQuad, 0) == [] && Ids(0) == []
    ensures FacesInRange(indices, n, 0, |vs|) && ManifoldUpTo(indices, n, 0)
  {
    assert AllKeys(indices, n, 0) == [];
    assert multiset(AllKeys(indices, n, 0)) == multiset{};
  }

  // ---------------------------------------------------------------------
  // One step of the face pass, on the stores

  /** Allocating a face's half-edges appends fresh records and false flags. */
  lemma AllocStep(p: PairState, hs: seq<Halfedge>, a: nat)
    requires |p.edge| == |p.twin| == |p.hasTwin| <= |hs|
    ensures Paired(hs, p) + Fresh(a) == Paired(hs + Fresh(a), p)
    ensures Flags(p, |hs|) + seq(a, _ => false) == Flags(p, |hs| + a)
    ensures Ids(|hs|) + seq(a, i => |hs| + i) == Ids(|hs| + a)
  {
  }

  /** Overwriting the element just appended. */
  lemma UpdateLast<T>(s: seq<T>, x: T, y: T)
    ensures (s + [x])[|s| := y] == s + [y]
  {
    assert forall k :: 0 <= k < |s| + 1 ==> (s + [x])[|s| := y][k] == (s + [y])[k];
  }

  /** Appending the next reference keeps an array of references equal to its positions. */
  lemma IdsSnoc(n: nat)
    ensures Ids(n) + [n] == Ids(n + 1)
  {
  }

  /** The vertices the vertex loop creates: one per position, without a half-edge or an index. */
  function NewVertices(positions: seq<Quadric.Vec3>): (vs: seq<Vertex>)
    ensures |vs| == |positions|
  {
    seq(|positions|, i requires 0 <= i < |positions| => Vertex(positions[i], -1, -1))
  }

  lemma NewVerticesSnoc(positions: seq<Quadric.Vec3>, i: nat)
    requires i < |positions|
    ensures NewVertices(positions[..i]) + [Vertex(positions[i], -1, -1)] == NewVertices(positions[..i + 1])
  {
    assert positions[..i + 1] == positions[..i] + [positions[i]];
  }

  /** Slot Base(k) + j is the first unlinked one: linking it moves the boundary of the linked slots by one. */
  lemma LinkSlot(indices: seq<int>, n: nat, k: nat, j: nat)
    requires Strided(indices, n) && k < FaceCount(indices, n) && j < Arity(indices, n, k)
    ensures
      var a, s := Arity(indices, n, k), Base(indices, n, k) + j;
      (LinksUpTo(indices, n, k) + FaceLinks(indices, n, k, j) + Fresh(a - j))[s := CornerLinks(indices, n, k, j)]
        == LinksUpTo(indices, n, k) + FaceLinks(indices, n, k, j + 1) + Fresh(a - j - 1)
  {
    var a, c := Arity(indices, n, k), CornerLinks(indices, n, k, j);
    var x := LinksUpTo(indices, n, k) + FaceLinks(indices, n, k, j);
    FaceLinksSnoc(indices, n, k, j);
    FreshCons(a - j - 1);
    UpdateAt(x, NewHalfedge, c, Fresh(a - j - 1));
    assert x + [c] == LinksUpTo(indices, n, k) + FaceLinks(indices, n, k, j + 1);
  }

  lemma FaceLinksSnoc(indices: seq<int>, n: nat, k: nat, j: nat)
    requires Strided(indices, n) && k < FaceCount(indices, n) && j < Arity(indices, n, k)
    ensures FaceLinks(indices, n, k, j + 1) == FaceLinks(indices, n, k, j) + [CornerLinks(indices, n, k, j)]
  {
  }

  lemma FreshCons(m: nat)
    ensures Fresh(m + 1) == [NewHalfedge] + Fresh(m)
  {
  }

  lemma UpdateAt<T>(x: seq<T>, y: T, z: T, w: seq<T>)
    ensures (x + ([y] + w))[|x| := z] == x + [z] + w
  {
  }

  /** Changing an unpaired half-edge commutes with laying the pairing over the store. */
  lemma PairedUpdate(hs: seq<Halfedge>, p: PairState, s: nat, x: Halfedge)
    requires |p.edge| == |p.twin| <= s < |hs|
    ensures Paired(hs, p)[s := x] == Paired(hs[s := x], p)
  {
  }

  /** Linking corner j of face k fills slot Base(k) + j, the first unlinked one. */
  lemma LinkStep(indices: seq<int>, n: nat, p: PairState, k: nat, j: nat)
    requires Strided(indices, n) && k < FaceCount(indices, n) && j < Arity(indices, n, k)
    requires |p.edge| == |p.twin| == Base(indices, n, k) + j
    ensures Paired(LinksUpTo(indices, n, k) + FaceLinks(indices, n, k, j) + Fresh(Arity(indices, n, k) - j), p)
              [Base(indices, n, k) + j := CornerLinks(indices, n, k, j)]
            == Paired(LinksUpTo(indices, n, k) + FaceLinks(indices, n, k, j + 1) + Fresh(Arity(indices, n, k) - j - 1), p)
  {
    var hs := LinksUpTo(indices, n, k) + FaceLinks(indices, n, k, j) + Fresh(Arity(indices, n, k) - j);
    LinkSlot(indices, n, k, j);
    PairedUpdate(hs, p, Base(indices, n, k) + j, CornerLinks(indices, n, k, j));
  }

  /** Pairing half-edge s with the key's first half-edge t0: mutual twins, shared edge, both flags set. */
  lemma PairExistingStep(hs: seq<Halfedge>, p: PairState, key: Key)
    requires Shaped(p) && |p.twin| < |hs| && key in p.existed
    ensures
      var s, t0 := |p.twin|, p.existed[key];
      var h := Paired(hs, p);
      var h1 := h[s := h[s].(twin := t0, edge := h[t0].edge)];
      h1[t0 := h1[t0].(twin := s)] == Paired(hs, Step(p, key)) &&
      Flags(p, |hs|)[s := true][t0 := true] == Flags(Step(p, key), |hs|) &&
      EdgeRecords(Step(p, key)) == EdgeRecords(p)
  {
  }

  /** A key met for the first time: half-edge s gets a new edge, which points back at it. */
  lemma PairNewStep(hs: seq<Halfedge>, p: PairState, key: Key)
    requires Shaped(p) && |p.twin| < |hs| && key !in p.existed && hs[|p.twin|].twin == -1
    ensures
      var s, e := |p.twin|, |p.edgeHalfedge|;
      var h := Paired(hs, p);
      var eds := EdgeRecords(p) + [Edge(-1, -1)];
      h[s := h[s].(edge := e)] == Paired(hs, Step(p, key))
    ensures
      var s, e := |p.twin|, |p.edgeHalfedge|;
      var eds := EdgeRecords(p) + [Edge(-1, -1)];
      eds[e := eds[e].(halfedge := s)] == EdgeRecords(Step(p, key))
    ensures Flags(p, |hs|) == Flags(Step(p, key), |hs|)
  {
    var s, e := |p.twin|, |p.edgeHalfedge|;
    var q := Step(p, key);
    assert q.twin == p.twin + [-1] && q.edge == p.edge + [e] && q.edgeHalfedge == p.edgeHalfedge + [s];
  }

  /** Replacing the last element. */
  lemma LastUpdate<T>(s: seq<T>, x: T, y: T)
    ensures (s + [x])[|s| := y] == s + [y]
  {
  }

  /** A finished face joins the finished faces and its half-edges the linked ones. */
  lemma FaceDoneStep(indices: seq<int>, n: nat, setsQuad: bool, k: nat)
    requires Strided(indices, n) && k < FaceCount(indices, n)
    ensures FacesDone(indices, n, setsQuad, k) + [DoneFace(indices, n, setsQuad, k)] == FacesDone(indices, n, setsQuad, k + 1)
    ensures LinksUpTo(indices, n, k) + FaceLinks(indices, n, k, Arity(indices, n, k)) + Fresh(0) == LinksUpTo(indices, n, k + 1)
  {
  }

  /** The key of slot Base(k) + j comes right after the keys of the slots before it. */
  lemma KeysPrefixStep(indices: seq<int>, n: nat, k: nat, j: nat)
    requires Strided(indices, n) && k < FaceCount(indices, n) && j < Arity(indices, n, k)
    ensures Base(indices, n, k) + j < |AllKeys(indices, n, k + 1)|
    ensures AllKeys(indices, n, k + 1)[..Base(indices, n, k) + j + 1]
            == AllKeys(indices, n, k + 1)[..Base(indices, n, k) + j] + [CornerKey(indices, n, k, j)]
  {
    AllKeysAt(indices, n, k + 1, k, j);
    TakeSnoc(AllKeys(indices, n, k + 1), Base(indices, n, k) + j, CornerKey(indices, n, k, j));
  }

  lemma TakeSnoc<T>(a: seq<T>, i: nat, x: T)
    requires i < |a| && a[i] == x
    ensures a[..i + 1] == a[..i] + [x]
  {
  }

  /** The keys of the slots before face k are those of faces 0 .. k-1. */
  lemma KeysPrefixStart(indices: seq<int>, n: nat, k: nat)
    requires Strided(indices, n) && k < FaceCount(indices, n)
    ensures AllKeys(indices, n, k + 1)[..Base(indices, n, k)] == AllKeys(indices, n, k)
  {
    AllKeysPrefix(indices, n, k, k + 1);
  }

  /** The key of the next corner extends the keys met so far, and the bookkeeping follows. */
  lemma KeyStep(indices: seq<int>, n: nat, k: nat, j: nat, keys: seq<Key>)
    requires Strided(indices, n) && k < FaceCount(indices, n) && j < Arity(indices, n, k)
    requires keys == AllKeys(indices, n, k + 1)[..Base(indices, n, k) + j]
    ensures Base(indices, n, k) + j + 1 <= |AllKeys(indices, n, k + 1)|
    ensures keys + [CornerKey(indices, n, k, j)] == AllKeys(indices, n, k + 1)[..Base(indices, n, k) + j + 1]
    ensures Step(Pairs(keys), CornerKey(indices, n, k, j)) == Pairs(keys + [CornerKey(indices, n, k, j)])
    ensures Step(Pairs(keys), CornerKey(indices, n, k, j)).count[CornerKey(indices, n, k, j)]
              == multiset(keys + [CornerKey(indices, n, k, j)])[CornerKey(indices, n, k, j)]
  {
    var key := CornerKey(indices, n, k, j);
    KeysPrefixStep(indices, n, k, j);
    PairsSnoc(keys, key);
    PairsCount(keys, key);
  }

  /** A key met a third time within face k breaks the manifold property of faces 0 .. k. */
  lemma ThirdSide(indices: seq<int>, n: nat, k: nat, j: nat, keys: seq<Key>)
    requires Strided(indices, n) && k < FaceCount(indices, n) && j < Arity(indices, n, k)
    requires keys == AllKeys(indices, n, k + 1)[..Base(indices, n, k) + j]
    requires multiset(keys + [CornerKey(indices, n, k, j)])[CornerKey(indices, n, k, j)] > 2
    ensures !ManifoldUpTo(indices, n, k + 1)
  {
    KeysPrefixStep(indices, n, k, j);
    PrefixMultiplicity(AllKeys(indices, n, k + 1), Base(indices, n, k) + j + 1, CornerKey(indices, n, k, j));
  }

  /** Appending a key met at most twice keeps every multiplicity at most two. */
  lemma AtMostTwiceSnoc(keys: seq<Key>, key: Key)
    requires AtMostTwice(keys)
    requires multiset(keys + [key])[key] <= 2
    ensures AtMostTwice(keys + [key])
  {
    forall k2
      ensures multiset(keys + [key])[k2] <= 2
    {
      assert multiset(keys + [key]) == multiset(keys) + multiset{key};
    }
  }

  // ---------------------------------------------------------------------
  // The finished face pass

  /** The half-edge store the face pass leaves: every corner linked and paired by all the keys. */
  ghost function Passed(indices: seq<int>, n: nat): (hs: seq<Halfedge>)
    requires Strided(indices, n)
    ensures |hs| == RealHalfedgeCount(indices, n)
  {
    Paired(LinksUpTo(indices, n, FaceCount(indices, n)), Pairs(AllKeys(indices, n, FaceCount(indices, n))))
  }

  /** Slot Base(k) + j of the linked half-edges of faces 0 .. kk-1 holds corner j of face k. */
  lemma {:induction false} LinksAt(indices: seq<int>, n: nat, kk: nat, k: nat, j: nat)
    requires Strided(indices, n) && k < kk <= FaceCount(indices, n) && j < Arity(indices, n, k)
    ensures Base(indices, n, k) + j < |LinksUpTo(indices, n, kk)|
    ensures LinksUpTo(indices, n, kk)[Base(indices, n, k) + j] == CornerLinks(indices, n, k, j)
  {
    if k == kk - 1 {
      var prev := LinksUpTo(indices, n, k);
      assert LinksUpTo(indices, n, kk)[|prev| + j] == FaceLinks(indices, n, k, Arity(indices, n, k))[j];
    } else {
      BaseMonotone(indices, n, k, kk - 1);
      LinksAt(indices, n, kk - 1, k, j);
      var prev := LinksUpTo(indices, n, kk - 1);
      assert LinksUpTo(indices, n, kk)[Base(indices, n, k) + j] == prev[Base(indices, n, k) + j];
    }
  }

  /**
   * Half-edge Base(k) + j of the finished pass leaves corner j of face k,
   * lies on face k between its neighbours in the face, and carries the
   * twin and edge the pairing gave it.
   */
  lemma PassedCorner(indices: seq<int>, n: nat, k: nat, j: nat)
    requires Strided(indices, n) && k < FaceCount(indices, n) && j < Arity(indices, n, k)
    ensures Base(indices, n, k) + j < RealHalfedgeCount(indices, n)
    ensures
      var s, p := Base(indices, n, k) + j, Pairs(AllKeys(indices, n, FaceCount(indices, n)));
      Passed(indices, n)[s] == CornerLinks(indices, n, k, j).(twin := p.twin[s], edge := p.edge[s])
  {
    LinksAt(indices, n, FaceCount(indices, n), k, j);
  }

  /** Half-edge Base(k) + j of the finished pass leaves corner j of face k and links to its neighbours in the face. */
  lemma PassedLinks(indices: seq<int>, n: nat, k: nat, j: nat)
    requires Strided(indices, n) && k < FaceCount(indices, n) && j < Arity(indices, n, k)
    ensures Base(indices, n, k) + j < |Passed(indices, n)|
    ensures
      var hs, a, b := Passed(indices, n), Arity(indices, n, k), Base(indices, n, k);
      hs[b + j].next == b + NextCorner(j, a) && hs[b + j].prev == b + PrevCorner(j, a) &&
      hs[b + j].face == k && hs[b + j].vertex == Corner(indices, n, k, j) && !hs[b + j].onBoundary
  {
    PassedCorner(indices, n, k, j);
  }

  /**
   * Within a face, the `next` half-edge of a half-edge leads back to it by
   * `prev`, lies on the same face and leaves the vertex this one runs to.
   */
  lemma PassedNextBack(indices: seq<int>, n: nat, k: nat, j: nat)
    requires Strided(indices, n) && k < FaceCount(indices, n) && j < Arity(indices, n, k)
    ensures Base(indices, n, k) + NextCorner(j, Arity(indices, n, k)) < |Passed(indices, n)|
    ensures
      var hs, nx := Passed(indices, n), Base(indices, n, k) + NextCorner(j, Arity(indices, n, k));
      hs[nx].prev == Base(indices, n, k) + j && hs[nx].face == k &&
      hs[nx].vertex == Corner(indices, n, k, NextCorner(j, Arity(indices, n, k)))
  {
    PassedLinks(indices, n, k, NextCorner(j, Arity(indices, n, k)));
    NextPrevInverse(j, Arity(indices, n, k));
  }

  /** Within a face, the `prev` half-edge of a half-edge leads back to it by `next` and lies on the same face. */
  lemma PassedPrevBack(indices: seq<int>, n: nat, k: nat, j: nat)
    requires Strided(indices, n) && k < FaceCount(indices, n) && j < Arity(indices, n, k)
    ensures Base(indices, n, k) + PrevCorner(j, Arity(indices, n, k)) < |Passed(indices, n)|
    ensures
      var hs, pv := Passed(indices, n), Base(indices, n, k) + PrevCorner(j, Arity(indices, n, k));
      hs[pv].next == Base(indices, n, k) + j && hs[pv].face == k
  {
    PassedLinks(indices, n, k, PrevCorner(j, Arity(indices, n, k)));
    NextPrevInverse(j, Arity(indices, n, k));
  }

  /** Pairing a store by a fold over its keys gives each half-edge the fold's twin and the edge it shares with it. */
  lemma PairedTwinAt(hs0: seq<Halfedge>, keys: seq<Key>, s: nat)
    requires |hs0| == |keys| && s < |keys|
    ensures
      var hs := Paired(hs0, Pairs(keys));
      (hs[s].twin != -1 <==> multiset(keys)[keys[s]] >= 2) &&
      (hs[s].twin != -1 ==> 0 <= hs[s].twin < |hs| && hs[s].twin != s && keys[hs[s].twin] == keys[s] &&
                            hs[hs[s].twin].edge == hs[s].edge && (multiset(keys)[keys[s]] == 2 ==> hs[hs[s].twin].twin == s))
  {
    var p := Pairs(keys);
    PairsTwinAt(keys, s);
    var hs := Paired(hs0, p);
    assert hs[s].twin == p.twin[s] && hs[s].edge == p.edge[s];
    if p.twin[s] != -1 {
      var t := p.twin[s];
      assert hs[t].edge == p.edge[t] && hs[t].twin == p.twin[t];
    }
  }

  /**
   * A half-edge of the finished pass has a twin exactly when another side
   * has its key; the twin is such a side and lies on the same edge; when
   * exactly two sides have the key, they are each other's twins.
   */
  lemma PassedTwin(indices: seq<int>, n: nat, s: nat)
    requires Strided(indices, n) && s < RealHalfedgeCount(indices, n)
    ensures
      var hs, keys := Passed(indices, n), AllKeys(indices, n, FaceCount(indices, n));
      (hs[s].twin != -1 <==> multiset(keys)[keys[s]] >= 2) &&
      (hs[s].twin != -1 ==> 0 <= hs[s].twin < |hs| && hs[s].twin != s && keys[hs[s].twin] == keys[s] &&
                            hs[hs[s].twin].edge == hs[s].edge && (multiset(keys)[keys[s]] == 2 ==> hs[hs[s].twin].twin == s))
  {
    var F := FaceCount(indices, n);
    PairedTwinAt(LinksUpTo(indices, n, F), AllKeys(indices, n, F), s);
  }

  /** Two half-edges of the finished pass share an edge exactly when their sides join the same two vertices. */
  lemma PassedEdges(indices: seq<int>, n: nat, k: nat, j: nat, k2: nat, j2: nat)
    requires Strided(indices, n) && k < FaceCount(indices, n) && j < Arity(indices, n, k)
    requires k2 < FaceCount(indices, n) && j2 < Arity(indices, n, k2)
    ensures
      var hs, s, s2 := Passed(indices, n), Base(indices, n, k) + j, Base(indices, n, k2) + j2;
      s < |hs| && s2 < |hs| &&
      (hs[s].edge == hs[s2].edge <==> CornerKey(indices, n, k, j) == CornerKey(indices, n, k2, j2)) &&
      0 <= hs[s].edge < |EdgeRecords(Pairs(AllKeys(indices, n, FaceCount(indices, n))))|
  {
    var keys := AllKeys(indices, n, FaceCount(indices, n));
    PassedCorner(indices, n, k, j);
    PassedCorner(indices, n, k2, j2);
    AllKeysAt(indices, n, FaceCount(indices, n), k, j);
    AllKeysAt(indices, n, FaceCount(indices, n), k2, j2);
    PairsEdges(keys);
  }

  /** On manifold input every twin of the finished pass is mutual. */
  lemma PassedTwinsMutual(indices: seq<int>, n: nat, s: nat)
    requires Strided(indices, n) && s < RealHalfedgeCount(indices, n)
    requires ManifoldInput(indices, n)
    ensures
      var hs := Passed(indices, n);
      hs[s].twin != -1 ==> 0 <= hs[s].twin < |hs| && hs[hs[s].twin].twin == s
  {
    var keys := AllKeys(indices, n, FaceCount(indices, n));
    PassedTwin(indices, n, s);
    assert multiset(keys)[keys[s]] <= 2;
  }

}
