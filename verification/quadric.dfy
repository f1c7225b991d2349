/**
 * The quadric error metric of the edge-collapse simplifier, over exact
 * reals: the fundamental error quadric of a face plane, its sums over the
 * faces around a vertex and the two ends of an edge, the error v^T Q v of a
 * point in homogeneous form (w = 1), the 17-sample search for the merge
 * point along an edge when the quadric cannot be inverted, and the
 * per-edge memoised error.
 *
 * Normalisation (`unit`), lengths (`norm`), determinants and inverses are
 * floating-point code outside this model: a face normal and the solution of
 * an invertible quadric enter as inputs.
 */
module Quadric {
  import opened Wrappers

  datatype Vec3 = Vec3(x: real, y: real, z: real)

  function Add(a: Vec3, b: Vec3): Vec3 { Vec3(a.x + b.x, a.y + b.y, a.z + b.z) }
  function Sub(a: Vec3, b: Vec3): Vec3 { Vec3(a.x - b.x, a.y - b.y, a.z - b.z) }
  function Scale(a: Vec3, t: real): Vec3 { Vec3(a.x * t, a.y * t, a.z * t) }
  function Dot(a: Vec3, b: Vec3): real { a.x * b.x + a.y * b.y + a.z * b.z }
  function Cross(a: Vec3, b: Vec3): Vec3
  {
    Vec3(a.y * b.z - a.z * b.y, a.z * b.x - a.x * b.z, a.x * b.y - a.y * b.x)
  }
  function Origin(): Vec3 { Vec3(0.0, 0.0, 0.0) }

  /** A 4x4 matrix, entry xij in row i and column j. */
  datatype Mat4 = Mat4(
    x00: real, x01: real, x02: real, x03: real,
    x10: real, x11: real, x12: real, x13: real,
    x20: real, x21: real, x22: real, x23: real,
    x30: real, x31: real, x32: real, x33: real)

  function ZeroMat(): Mat4
  {
    Mat4(0.0, 0.0, 0.0, 0.0, 0.0, 0.0, 0.0, 0.0, 0.0, 0.0, 0.0, 0.0, 0.0, 0.0, 0.0, 0.0)
  }

  function MatAdd(p: Mat4, q: Mat4): Mat4
  {
    Mat4(p.x00 + q.x00, p.x01 + q.x01, p.x02 + q.x02, p.x03 + q.x03,
         p.x10 + q.x10, p.x11 + q.x11, p.x12 + q.x12, p.x13 + q.x13,
         p.x20 + q.x20, p.x21 + q.x21, p.x22 + q.x22, p.x23 + q.x23,
         p.x30 + q.x30, p.x31 + q.x31, p.x32 + q.x32, p.x33 + q.x33)
  }

  predicate Symmetric(q: Mat4)
  {
    q.x01 == q.x10 && q.x02 == q.x20 && q.x03 == q.x30 &&
    q.x12 == q.x21 && q.x13 == q.x31 && q.x23 == q.x32
  }

  // ---------------------------------------------------------------------
  // Quadrics of faces, vertices and edges

  /**
   * Fundamental error quadric of the plane with normal n through p: the
   * outer product of (a, b, c, d) with itself, d = -(a*p.x + b*p.y + c*p.z).
   */
  function PlaneQuadric(n: Vec3, p: Vec3): (q: Mat4)
    ensures Symmetric(q)
  {
    OuterQuadric(n.x, n.y, n.z, PlaneOffsetOf(n, p))
  }

  /** The plane's constant term d = -a*x - b*y - c*z at the point p. */
  function PlaneOffsetOf(n: Vec3, p: Vec3): real
  {
    -n.x * p.x - n.y * p.y - n.z * p.z
  }

  /** (a, b, c, d)(a, b, c, d)^T. */
  function OuterQuadric(a: real, b: real, c: real, d: real): Mat4
  {
    Mat4(a * a, a * b, a * c, a * d,
         a * b, b * b, b * c, b * d,
         a * c, b * c, c * c, c * d,
         a * d, b * d, c * d, d * d)
  }

  /** Face.normal: the zero vector on a boundary face, otherwise the unit normal (computed outside the model). */
  function FaceNormal(onBoundary: bool, unitNormal: Vec3): Vec3
  {
    if onBoundary then Origin() else unitNormal
  }

  /** Face.area: 0 on a boundary face, otherwise the triangle area (computed outside the model). */
  function FaceArea(onBoundary: bool, triangleArea: real): real
  {
    if onBoundary then 0.0 else triangleArea
  }

  /** Face.quadric: the plane quadric of the face normal through the face's first vertex. */
  function FaceQuadric(onBoundary: bool, unitNormal: Vec3, firstCorner: Vec3): (q: Mat4)
    ensures onBoundary ==> q == ZeroMat()
    ensures Symmetric(q)
  {
    PlaneQuadric(FaceNormal(onBoundary, unitNormal), firstCorner)
  }

  /**
   * A boundary (virtual) face has no area, a normal orthogonal to every
   * direction and a quadric whose error is zero everywhere; a real face
   * keeps its own normal and area.
   */
  lemma BoundaryFaceIsNeutral(unitNormal: Vec3, triangleArea: real, firstCorner: Vec3)
    ensures FaceArea(true, triangleArea) == 0.0 && FaceArea(false, triangleArea) == triangleArea
    ensures forall v :: Dot(FaceNormal(true, unitNormal), v) == 0.0
    ensures FaceNormal(false, unitNormal) == unitNormal
    ensures forall v :: QuadricError(FaceQuadric(true, unitNormal, firstCorner), v) == 0.0
  {
  }

  /** One step of the walk around a vertex: the half-edge's flag and its face's normal and first corner. */
  datatype RingFace = RingFace(onBoundary: bool, unitNormal: Vec3, firstCorner: Vec3)

  /** Vertex.quadric: the face quadrics summed over the walk, skipping boundary half-edges. */
  function VertexQuadric(ring: seq<RingFace>): (q: Mat4)
    ensures Symmetric(q)
  {
    if ring == [] then ZeroMat()
    else
      var rest := VertexQuadric(ring[1..]);
      if ring[0].onBoundary then rest
      else MatAdd(FaceQuadric(false, ring[0].unitNormal, ring[0].firstCorner), rest)
  }

  /** Edge.quadric: the sum of the quadrics of the edge's two end vertices. */
  function EdgeQuadric(q1: Mat4, q2: Mat4): (q: Mat4)
    ensures Symmetric(q1) && Symmetric(q2) ==> Symmetric(q)
  {
    MatAdd(q1, q2)
  }

  // ---------------------------------------------------------------------
  // Errors

  /** quadricError: v^T Q v for v = (x, y, z, 1), all sixteen terms written out. */
  function QuadricError(q: Mat4, v: Vec3): real
  {
    v.x * q.x00 * v.x + v.y * q.x10 * v.x + v.z * q.x20 * v.x + q.x30 * v.x +
    v.x * q.x01 * v.y + v.y * q.x11 * v.y + v.z * q.x21 * v.y + q.x31 * v.y +
    v.x * q.x02 * v.z + v.y * q.x12 * v.z + v.z * q.x22 * v.z + q.x32 * v.z +
    v.x * q.x03       + v.y * q.x13       + v.z * q.x23       + q.x33
  }

  /** Matrix.mulpos: the upper three rows applied to (x, y, z, 1). */
  function MulPos(q: Mat4, v: Vec3): Vec3
  {
    Vec3(q.x00 * v.x + q.x01 * v.y + q.x02 * v.z + q.x03,
         q.x10 * v.x + q.x11 * v.y + q.x12 * v.z + q.x13,
         q.x20 * v.x + q.x21 * v.y + q.x22 * v.z + q.x23)
  }

  /** calc_error_v2: v . (Q v) plus the fourth row's product. */
  function CalcErrorV2(q: Mat4, v: Vec3): (e: real)
    ensures e == QuadricError(q, v)
  {
    var right := MulPos(q, v);
    var w := q.x30 * v.x + q.x31 * v.y + q.x32 * v.z + q.x33;
    v.x * right.x + v.y * right.y + v.z * right.z + w
  }

  /** The simplifier's error and the remesher's sixteen-term error are the same function. */
  lemma ErrorFormulasAgree(q: Mat4, v: Vec3)
    ensures CalcErrorV2(q, v) == QuadricError(q, v)
  {
  }

  /** The error of a plane quadric is the squared plane equation, hence never negative. */
  lemma PlaneQuadricError(n: Vec3, p: Vec3, v: Vec3)
    ensures QuadricError(PlaneQuadric(n, p), v) == (Dot(n, v) - Dot(n, p)) * (Dot(n, v) - Dot(n, p))
    ensures QuadricError(PlaneQuadric(n, p), v) >= 0.0
  {
    var d := PlaneOffsetOf(n, p);
    OuterQuadricError(n.x, n.y, n.z, d, v);
    PlaneOffsetSquare(n, p, v);
    var t := Dot(n, v) - Dot(n, p);
    assert t * t >= 0.0;
  }

  lemma OuterQuadricError(a: real, b: real, c: real, d: real, v: Vec3)
    ensures QuadricError(OuterQuadric(a, b, c, d), v) == (a * v.x + b * v.y + c * v.z + d) * (a * v.x + b * v.y + c * v.z + d)
  {
    OuterProductForm(a, b, c, d, v.x, v.y, v.z);
  }

  lemma PlaneOffsetSquare(n: Vec3, p: Vec3, v: Vec3)
    ensures (Dot(n, v) - Dot(n, p)) * (Dot(n, v) - Dot(n, p))
      == (n.x * v.x + n.y * v.y + n.z * v.z + PlaneOffsetOf(n, p)) * (n.x * v.x + n.y * v.y + n.z * v.z + PlaneOffsetOf(n, p))
  {
    assert (-n.x) * p.x == -(n.x * p.x) && (-n.y) * p.y == -(n.y * p.y) && (-n.z) * p.z == -(n.z * p.z);
    assert Dot(n, v) - Dot(n, p) == n.x * v.x + n.y * v.y + n.z * v.z + PlaneOffsetOf(n, p);
  }

  /** (a, b, c, d) (a, b, c, d)^T applied to (x, y, z, 1) on both sides, in the order the error sums it. */
  lemma OuterProductForm(a: real, b: real, c: real, d: real, x: real, y: real, z: real)
    ensures
      x * (a * a) * x + y * (a * b) * x + z * (a * c) * x + (a * d) * x +
      x * (a * b) * y + y * (b * b) * y + z * (b * c) * y + (b * d) * y +
      x * (a * c) * z + y * (b * c) * z + z * (c * c) * z + (c * d) * z +
      x * (a * d) + y * (b * d) + z * (c * d) + d * d
      == (a * x + b * y + c * z + d) * (a * x + b * y + c * z + d)
  {
    var s := a * x + b * y + c * z + d;
    RowFactor(a, a, b, c, d, x, y, z, x);
    RowFactor(b, a, b, c, d, x, y, z, y);
    RowFactor(c, a, b, c, d, x, y, z, z);
    assert x * (a * d) + y * (b * d) + z * (c * d) + d * d == d * s;
    assert a * x * s + b * y * s + c * z * s + d * s == s * s;
  }

  lemma RowFactor(k: real, a: real, b: real, c: real, d: real, x: real, y: real, z: real, w: real)
    ensures x * (a * k) * w + y * (b * k) * w + z * (c * k) * w + (d * k) * w == k * w * (a * x + b * y + c * z + d)
  {
  }

  /** The error is additive in the quadric. */
  lemma ErrorAdditive(p: Mat4, q: Mat4, v: Vec3)
    ensures QuadricError(MatAdd(p, q), v) == QuadricError(p, v) + QuadricError(q, v)
  {
  }

  /** A quadric whose error is non-negative everywhere. */
  ghost predicate NonNegative(q: Mat4)
  {
    forall v :: QuadricError(q, v) >= 0.0
  }

  lemma PlaneQuadricNonNegative(n: Vec3, p: Vec3)
    ensures NonNegative(PlaneQuadric(n, p))
  {
    forall v
      ensures QuadricError(PlaneQuadric(n, p), v) >= 0.0
    {
      PlaneQuadricError(n, p, v);
    }
  }

  lemma SumNonNegative(p: Mat4, q: Mat4)
    requires NonNegative(p) && NonNegative(q)
    ensures NonNegative(MatAdd(p, q))
  {
    forall v
      ensures QuadricError(MatAdd(p, q), v) >= 0.0
    {
      ErrorAdditive(p, q, v);
    }
  }

  /** A vertex quadric is a sum of plane quadrics: its error is never negative. */
  lemma {:induction false} VertexQuadricNonNegative(ring: seq<RingFace>)
    ensures NonNegative(VertexQuadric(ring))
  {
    if ring == [] {
      forall v
        ensures QuadricError(ZeroMat(), v) >= 0.0
      {
      }
    } else {
      VertexQuadricNonNegative(ring[1..]);
      if !ring[0].onBoundary {
        PlaneQuadricNonNegative(ring[0].unitNormal, ring[0].firstCorner);
        SumNonNegative(FaceQuadric(false, ring[0].unitNormal, ring[0].firstCorner), VertexQuadric(ring[1..]));
      }
    }
  }

  /** The sum over all faces of the walk, boundary faces included (their quadric is zero). */
  function AllFacesQuadric(ring: seq<RingFace>): Mat4
  {
    if ring == [] then ZeroMat()
    else MatAdd(FaceQuadric(ring[0].onBoundary, ring[0].unitNormal, ring[0].firstCorner), AllFacesQuadric(ring[1..]))
  }

  /** Skipping the boundary half-edges changes nothing: a boundary face contributes the zero quadric. */
  lemma {:induction false} SkippingBoundaryFacesIsHarmless(ring: seq<RingFace>)
    ensures VertexQuadric(ring) == AllFacesQuadric(ring)
  {
    if ring != [] {
      SkippingBoundaryFacesIsHarmless(ring[1..]);
      var rest := VertexQuadric(ring[1..]);
      if ring[0].onBoundary {
        assert MatAdd(ZeroMat(), rest) == rest;
      }
    }
  }

  /** An edge error is the sum of its end vertices' errors, hence never negative. */
  lemma EdgeQuadricError(ring1: seq<RingFace>, ring2: seq<RingFace>, v: Vec3)
    ensures QuadricError(EdgeQuadric(VertexQuadric(ring1), VertexQuadric(ring2)), v) ==
            QuadricError(VertexQuadric(ring1), v) + QuadricError(VertexQuadric(ring2), v)
    ensures QuadricError(EdgeQuadric(VertexQuadric(ring1), VertexQuadric(ring2)), v) >= 0.0
  {
    ErrorAdditive(VertexQuadric(ring1), VertexQuadric(ring2), v);
    VertexQuadricNonNegative(ring1);
    VertexQuadricNonNegative(ring2);
    assert QuadricError(VertexQuadric(ring1), v) >= 0.0;
    assert QuadricError(VertexQuadric(ring2), v) >= 0.0;
  }

  /**
   * A face quadric vanishes at each corner of its triangle when the normal
   * is a multiple of the cross product of two side vectors: the plane goes
   * through all three corners.
   */
  lemma FaceQuadricVanishesAtCorners(p0: Vec3, p1: Vec3, p2: Vec3, scale: real)
    ensures var n := Scale(Cross(Sub(p1, p0), Sub(p2, p0)), scale);
      QuadricError(PlaneQuadric(n, p0), p0) == 0.0 &&
      QuadricError(PlaneQuadric(n, p0), p1) == 0.0 &&
      QuadricError(PlaneQuadric(n, p0), p2) == 0.0
  {
    var u, w := Sub(p1, p0), Sub(p2, p0);
    var c := Cross(u, w);
    var n := Scale(c, scale);
    assert Dot(c, u) == 0.0;
    assert Dot(c, w) == 0.0;
    assert Dot(n, p1) - Dot(n, p0) == scale * Dot(c, u);
    assert Dot(n, p2) - Dot(n, p0) == scale * Dot(c, w);
    PlaneQuadricError(n, p0, p0);
    PlaneQuadricError(n, p0, p1);
    PlaneQuadricError(n, p0, p2);
  }

  // ---------------------------------------------------------------------
  // The merge point when the quadric cannot be inverted

  const SampleIntervals: nat := 16

  /** Sample i of the search: a + (i/16)(b - a). */
  function Sample(a: Vec3, b: Vec3, i: nat): Vec3
  {
    Add(a, Scale(Sub(b, a), i as real / SampleIntervals as real))
  }

  /**
   * The index kept after the first i samples: a sample replaces the kept one
   * when the kept error is negative (the -1 start value) or the sample's
   * error is strictly smaller.
   */
  function KeptSample(q: Mat4, a: Vec3, b: Vec3, i: nat): (k: nat)
    requires i > 0
    ensures k < i
  {
    if i == 1 then 0
    else
      var k := KeptSample(q, a, b, i - 1);
      var e := QuadricError(q, Sample(a, b, k));
      if e < 0.0 || QuadricError(q, Sample(a, b, i - 1)) < e then i - 1 else k
  }

  /**
   * When no sample has a negative error, the kept sample is the first one of
   * least error: no sample is smaller, and every earlier sample is larger.
   */
  lemma {:induction false} KeptSampleIsFirstMinimum(q: Mat4, a: Vec3, b: Vec3, i: nat)
    requires i > 0
    requires forall k :: 0 <= k < i ==> QuadricError(q, Sample(a, b, k)) >= 0.0
    ensures forall k :: 0 <= k < i ==>
      QuadricError(q, Sample(a, b, KeptSample(q, a, b, i))) <= QuadricError(q, Sample(a, b, k))
    ensures forall k :: 0 <= k < KeptSample(q, a, b, i) ==>
      QuadricError(q, Sample(a, b, KeptSample(q, a, b, i))) < QuadricError(q, Sample(a, b, k))
  {
    if i > 1 {
      KeptSampleIsFirstMinimum(q, a, b, i - 1);
    }
  }

  /** The sampling loop of bestVertex and of computeEdgeError. */
  method SampleEdge(q: Mat4, a: Vec3, b: Vec3) returns (bestv: Vec3, beste: real)
    ensures bestv == Sample(a, b, KeptSample(q, a, b, SampleIntervals + 1))
    ensures beste == QuadricError(q, bestv)
  {
    beste := -1.0;
    bestv := Origin();
    ghost var kept: nat := 0;
    var i: nat := 0;
    while i <= SampleIntervals
      invariant i <= SampleIntervals + 1
      invariant i > 0 ==> kept == KeptSample(q, a, b, i)
      invariant i > 0 ==> bestv == Sample(a, b, kept) && beste == QuadricError(q, bestv)
      invariant i == 0 ==> beste == -1.0
    {
      var v := Sample(a, b, i);
      var e := QuadricError(q, v);
      if beste < 0.0 || e < beste {
        beste := e;
        bestv := v;
        kept := i;
      }
      i := i + 1;
    }
  }

  /**
   * Edge.bestVertex: the solution of the quadric when it is invertible
   * (given), otherwise the sampled point. The NaN test after the inverse
   * compares with `!==` and always passes, so a solution is always used.
   */
  function BestVertex(q: Mat4, solution: Option<Vec3>, a: Vec3, b: Vec3): (v: Vec3)
    ensures solution.Some? ==> v == solution.value
    ensures solution.None? ==> exists k :: 0 <= k <= SampleIntervals && v == Sample(a, b, k)
  {
    if solution.Some? then solution.value
    else Sample(a, b, KeptSample(q, a, b, SampleIntervals + 1))
  }

  /** Without an invertible solution, the best vertex has least error among the 17 samples. */
  lemma BestVertexMinimal(ring1: seq<RingFace>, ring2: seq<RingFace>, a: Vec3, b: Vec3, k: nat)
    requires k <= SampleIntervals
    ensures var q := EdgeQuadric(VertexQuadric(ring1), VertexQuadric(ring2));
      QuadricError(q, BestVertex(q, None, a, b)) <= QuadricError(q, Sample(a, b, k))
  {
    var q := EdgeQuadric(VertexQuadric(ring1), VertexQuadric(ring2));
    forall i | 0 <= i < SampleIntervals + 1
      ensures QuadricError(q, Sample(a, b, i)) >= 0.0
    {
      EdgeQuadricError(ring1, ring2, Sample(a, b, i));
    }
    KeptSampleIsFirstMinimum(q, a, b, SampleIntervals + 1);
  }

  /** computeEdgeError's result: the edge, its error, the merge point and whether Qbar was inverted. */
  datatype EdgeErrorResult = EdgeErrorResult(pair: int, error: real, mergePoint: Vec3, invertible: bool)

  /** Qbar after the invertible branch's writes: the last row becomes (0, 0, 0, 1). */
  function LastRowReset(q: Mat4): Mat4
  {
    q.(x30 := 0.0, x31 := 0.0, x32 := 0.0, x33 := 1.0)
  }

  /**
   * computeEdgeError as written: Qbar = q1 + q2; when Qbar is invertible its
   * last row is overwritten with (0, 0, 0, 1) before the inverse, and the
   * error is then taken under that overwritten matrix; otherwise the merge
   * point is the best of the 17 samples from the edge's first vertex a to
   * the vertex b after it, and the error is taken under q1 + q2.
   */
  method ComputeEdgeError(q1: Mat4, q2: Mat4, edge: int, solution: Option<Vec3>, a: Vec3, b: Vec3)
    returns (r: EdgeErrorResult)
    ensures r.pair == edge && r.invertible == solution.Some?
    ensures r.mergePoint == BestVertex(MatAdd(q1, q2), solution, a, b)
    ensures r.error == QuadricError(if solution.Some? then LastRowReset(MatAdd(q1, q2)) else MatAdd(q1, q2), r.mergePoint)
    ensures solution.None? && NonNegative(q1) && NonNegative(q2) ==> r.error >= 0.0
    ensures solution.Some? && MulPos(MatAdd(q1, q2), solution.value) == Origin() ==> r.error == 1.0
  {
    var qbar := MatAdd(q1, q2);
    var vbar: Vec3;
    if solution.Some? {
      qbar := LastRowReset(qbar);
      vbar := solution.value;
    } else {
      var e;
      vbar, e := SampleEdge(qbar, a, b);
    }
    ErrorFormulasAgree(qbar, vbar);
    r := EdgeErrorResult(edge, CalcErrorV2(qbar, vbar), vbar, solution.Some?);
    if solution.None? && NonNegative(q1) && NonNegative(q2) {
      SumNonNegative(q1, q2);
    }
    if solution.Some? && MulPos(MatAdd(q1, q2), solution.value) == Origin() {
      MutatedErrorAtSolution(MatAdd(q1, q2), solution.value);
    }
  }

  /**
   * At a solution of the invertible branch (the upper three rows of Qbar
   * send (x, y, z, 1) to zero, and the overwritten last row gives 1), the
   * error under the overwritten matrix is 1 whatever the quadric: every
   * invertible edge gets the same error.
   */
  lemma MutatedErrorAtSolution(q: Mat4, v: Vec3)
    requires MulPos(q, v) == Origin()
    ensures QuadricError(LastRowReset(q), v) == 1.0
  {
    ErrorFormulasAgree(LastRowReset(q), v);
    assert MulPos(LastRowReset(q), v) == MulPos(q, v);
  }

  /**
   * The sum of the plane quadrics of x = 0, y = 0, z = 0 and x = 1, as
   * q1 + q2 for an edge whose end vertices see those four planes. Its
   * determinant is 1, so the simplifier takes the invertible branch.
   */
  function FourPlanes(): Mat4
  {
    Mat4(2.0, 0.0, 0.0, -1.0, 0.0, 1.0, 0.0, 0.0, 0.0, 0.0, 1.0, 0.0, -1.0, 0.0, 0.0, 1.0)
  }

  /**
   * With q1 + q2 = FourPlanes the solution is (0.5, 0, 0). The written
   * error there is 1, while the error under q1 + q2, the sum of the squared
   * distances to the four planes, is 0.5.
   */
  lemma MutatedErrorCounterexample()
    ensures MulPos(FourPlanes(), Vec3(0.5, 0.0, 0.0)) == Origin()
    ensures QuadricError(LastRowReset(FourPlanes()), Vec3(0.5, 0.0, 0.0)) == 1.0
    ensures QuadricError(FourPlanes(), Vec3(0.5, 0.0, 0.0)) == 0.5
  {
    MutatedErrorAtSolution(FourPlanes(), Vec3(0.5, 0.0, 0.0));
  }

  /**
   * computeEdgeError as evidently intended (and as the remesher's
   * bestVertex/error do, on a separate copy of the quadric): the error is
   * taken under q1 + q2 in both branches, so it is never negative when both
   * quadrics are non-negative, and at a solution it is the last row of
   * q1 + q2 applied to (x, y, z, 1).
   */
  method CorrectedEdgeError(q1: Mat4, q2: Mat4, edge: int, solution: Option<Vec3>, a: Vec3, b: Vec3)
    returns (r: EdgeErrorResult)
    ensures r.pair == edge && r.invertible == solution.Some?
    ensures r.mergePoint == BestVertex(MatAdd(q1, q2), solution, a, b)
    ensures r.error == QuadricError(MatAdd(q1, q2), r.mergePoint)
    ensures NonNegative(q1) && NonNegative(q2) ==> r.error >= 0.0
    ensures var q := MatAdd(q1, q2);
      solution.Some? && MulPos(q, solution.value) == Origin() ==>
        r.error == q.x30 * solution.value.x + q.x31 * solution.value.y + q.x32 * solution.value.z + q.x33
  {
    var qbar := MatAdd(q1, q2);
    var vbar: Vec3;
    if solution.Some? {
      vbar := solution.value;
    } else {
      var e;
      vbar, e := SampleEdge(qbar, a, b);
    }
    ErrorFormulasAgree(qbar, vbar);
    r := EdgeErrorResult(edge, CalcErrorV2(qbar, vbar), vbar, solution.Some?);
    if NonNegative(q1) && NonNegative(q2) {
      SumNonNegative(q1, q2);
    }
  }

  // ---------------------------------------------------------------------
  // Edge.error memoisation

  class EdgeError {
    /** Edge.errorCache: None until the error is first computed. */
    var errorCache: Option<real>

    constructor ()
      ensures errorCache == None
    {
      errorCache := None;
    }

    /**
     * Edge.error: on the first call computes the error of the edge quadric
     * at the best vertex and caches it; afterwards returns the cached value.
     */
    method Error(q: Mat4, solution: Option<Vec3>, a: Vec3, b: Vec3) returns (e: real)
      modifies this
      ensures old(errorCache).Some? ==> e == old(errorCache).value && errorCache == old(errorCache)
      ensures old(errorCache).None? ==> e == QuadricError(q, BestVertex(q, solution, a, b))
      ensures errorCache == Some(e)
    {
      if errorCache.None? {
        var v: Vec3;
        if solution.Some? {
          v := solution.value;
        } else {
          var best;
          v, best := SampleEdge(q, a, b);
        }
        errorCache := Some(QuadricError(q, v));
        return errorCache.value;
      }
      return errorCache.value;
    }
  }
}
