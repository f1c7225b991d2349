/**
 * Index arithmetic shared by the four half-edge builders: the flat corner
 * list read from the OBJ `f` lines, the per-face corner count, the slot of
 * each half-edge in the half-edge array, the cyclic `next`/`prev` corner
 * offsets and the sorted-pair key of an undirected edge.
 *
 * Corner lists are 0-based vertex indices (the OBJ index minus one), laid
 * out with a fixed stride `n` per face: 3 for a triangle mesh, 4 for a mesh
 * that contains a quad, in which case triangles are padded with -1.
 */
module Connectivity {
  import opened Wrappers

  // ---------------------------------------------------------------------
  // Parsing the face lines

  /** OBJ face indices are 1-based; the builders subtract one from each. */
  function ToZeroBased(objIndices: seq<int>): (r: seq<int>)
    ensures |r| == |objIndices|
    ensures forall i :: 0 <= i < |r| ==> r[i] + 1 == objIndices[i]
  {
    if objIndices == [] then [] else [objIndices[0] - 1] + ToZeroBased(objIndices[1..])
  }

  /** Some face line has four corners: the mesh is then read with stride 4. */
  predicate ContainsQuad(faceLines: seq<seq<int>>)
  {
    exists k :: 0 <= k < |faceLines| && |faceLines[k]| == 4
  }

  predicate FaceLinesWellFormed(faceLines: seq<seq<int>>)
  {
    forall k :: 0 <= k < |faceLines| ==> |faceLines[k]| == 3 || |faceLines[k]| == 4
  }

  /**
   * The corner list of the quad-aware reader: each face line's 0-based
   * indices, followed by a -1 pad when the line is a triangle and the mesh
   * contains a quad.
   */
  function FlattenFaces(faceLines: seq<seq<int>>, containsQuad: bool): (r: seq<int>)
    requires FaceLinesWellFormed(faceLines)
    requires !containsQuad ==> forall k :: 0 <= k < |faceLines| ==> |faceLines[k]| == 3
    ensures |r| == Offset(|faceLines|, Stride(containsQuad))
  {
    if faceLines == [] then []
    else
      var line := ToZeroBased(faceLines[0]);
      var pad := if containsQuad && |line| == 3 then [-1] else [];
      line + pad + FlattenFaces(faceLines[1..], containsQuad)
  }

  function Stride(containsQuad: bool): (n: nat)
    ensures n == 3 || n == 4
  {
    if containsQuad then 4 else 3
  }

  lemma {:induction false} FlattenFacesCorner(faceLines: seq<seq<int>>, containsQuad: bool, k: nat, j: nat)
    requires FaceLinesWellFormed(faceLines)
    requires !containsQuad ==> forall k :: 0 <= k < |faceLines| ==> |faceLines[k]| == 3
    requires k < |faceLines|
    requires j < Stride(containsQuad)
    ensures Offset(k, Stride(containsQuad)) + Stride(containsQuad) <= |FlattenFaces(faceLines, containsQuad)|
    ensures var r := FlattenFaces(faceLines, containsQuad);
      var n := Stride(containsQuad);
      r[Offset(k, n) + j] == if j < |faceLines[k]| then faceLines[k][j] - 1 else -1
  {
    var n := Stride(containsQuad);
    var r := FlattenFaces(faceLines, containsQuad);
    OffsetMonotone(k, |faceLines|, n);
    var line := ToZeroBased(faceLines[0]);
    var pad := if containsQuad && |line| == 3 then [-1] else [];
    assert |line + pad| == n;
    if k == 0 {
      assert r[j] == (line + pad)[j];
    } else {
      var rest := FlattenFaces(faceLines[1..], containsQuad);
      FlattenFacesCorner(faceLines[1..], containsQuad, k - 1, j);
      assert r == (line + pad) + rest;
      assert Offset(k, n) + j == |line + pad| + (Offset(k - 1, n) + j);
    }
  }

  // ---------------------------------------------------------------------
  // Face layout

  /** Position of the first corner of face k in a list of stride n (k * n, as a sum). */
  function Offset(k: nat, n: nat): nat
  {
    if k == 0 then 0 else Offset(k - 1, n) + n
  }

  lemma {:induction false} OffsetIsProduct(k: nat, n: nat)
    ensures Offset(k, n) == k * n
  {
    if k > 0 {
      OffsetIsProduct(k - 1, n);
    }
  }

  /** Whole faces of stride n in a list of len corners. */
  function FaceCountOf(len: nat, n: nat): nat
    requires n > 0
  {
    if len < n then 0 else 1 + FaceCountOf(len - n, n)
  }

  /** The list splits into whole faces of n corners, n being 3 or 4. */
  predicate Strided(indices: seq<int>, n: nat)
  {
    (n == 3 || n == 4) && Offset(FaceCountOf(|indices|, n), n) == |indices|
  }

  /** Splitting into whole faces is exactly divisibility (the array length `indices.length / n` is an integer). */
  lemma {:induction false} StridedIffDivisible(len: nat, n: nat)
    requires n == 3 || n == 4
    ensures Offset(FaceCountOf(len, n), n) == len <==> len % n == 0
    decreases len
  {
    if len >= n {
      StridedIffDivisible(len - n, n);
      if n == 3 {
        assert (len - 3) % 3 == len % 3;
      } else {
        assert (len - 4) % 4 == len % 4;
      }
    }
  }

  function FaceCount(indices: seq<int>, n: nat): nat
    requires Strided(indices, n)
  {
    FaceCountOf(|indices|, n)
  }

  /** Faces are laid out back to back, n corners each. */
  lemma {:induction false} OffsetMonotone(k: nat, k2: nat, n: nat)
    requires k < k2
    ensures Offset(k, n) + n <= Offset(k2, n)
    decreases k2
  {
    if k + 1 < k2 {
      OffsetMonotone(k, k2 - 1, n);
    }
  }

  /** Number of corners of face k: 4 only for an unpadded entry of a stride-4 list. */
  function Arity(indices: seq<int>, n: nat, k: nat): (a: nat)
    requires Strided(indices, n) && k < FaceCount(indices, n)
    ensures a == 3 || a == 4
    ensures a <= n && Offset(k, n) + n <= |indices|
    ensures a == 4 <==> n == 4 && indices[Offset(k, n) + 3] != -1
  {
    LayoutBound(indices, n, k);
    if n == 4 && indices[Offset(k, n) + 3] != -1 then 4 else 3
  }

  lemma LayoutBound(indices: seq<int>, n: nat, k: nat)
    requires Strided(indices, n) && k < FaceCount(indices, n)
    ensures Offset(k, n) + n <= |indices|
  {
    OffsetMonotone(k, FaceCount(indices, n), n);
  }

  /** Vertex at corner j of face k. */
  function Corner(indices: seq<int>, n: nat, k: nat, j: nat): int
    requires Strided(indices, n) && k < FaceCount(indices, n) && j < n
  {
    LayoutBound(indices, n, k);
    indices[Offset(k, n) + j]
  }

  /** Offset of the corner after j in a face of a corners (a triangle or a quad): (j + 1) % a. */
  function NextCorner(j: nat, a: nat): (r: nat)
    requires (a == 3 || a == 4) && j < a
    ensures r < a
  {
    if j + 1 == a then 0 else j + 1
  }

  /** Offset of the corner before j in a face of a corners: (j + a - 1) % a. */
  function PrevCorner(j: nat, a: nat): (r: nat)
    requires (a == 3 || a == 4) && j < a
    ensures r < a
  {
    if j == 0 then a - 1 else j - 1
  }

  /** The offsets are the source's modular expressions. */
  lemma CornersModular(j: nat, a: nat)
    requires (a == 3 || a == 4) && j < a
    ensures NextCorner(j, a) == (j + 1) % a
    ensures PrevCorner(j, a) == (j + a - 1) % a
  {
    ModOnce(j + 1, a);
    ModOnce(j + a - 1, a);
  }

  /** The two offsets are inverse permutations of 0..a-1. */
  lemma NextPrevInverse(j: nat, a: nat)
    requires (a == 3 || a == 4) && j < a
    ensures PrevCorner(NextCorner(j, a), a) == j
    ensures NextCorner(PrevCorner(j, a), a) == j
  {
  }

  /** The corner reached from j after s `next` steps. */
  function NextSteps(j: nat, a: nat, s: nat): (r: nat)
    requires (a == 3 || a == 4) && j < a
    ensures r < a
  {
    if s == 0 then j else NextCorner(NextSteps(j, a, s - 1), a)
  }

  lemma {:induction false} NextStepsShift(j: nat, a: nat, s: nat)
    requires (a == 3 || a == 4) && j < a
    ensures NextSteps(j, a, s) == (j + s) % a
  {
    if s > 0 {
      NextStepsShift(j, a, s - 1);
      CornersModular(NextSteps(j, a, s - 1), a);
      ModSuccessor(j + s - 1, a);
    }
  }

  lemma ModOnce(x: nat, a: nat)
    requires (a == 3 || a == 4) && x < 2 * a
    ensures x % a == if x < a then x else x - a
  {
    if a == 3 {
      if x < 3 { assert x == 0 * 3 + x; } else { assert x == 1 * 3 + (x - 3); }
    } else {
      if x < 4 { assert x == 0 * 4 + x; } else { assert x == 1 * 4 + (x - 4); }
    }
  }

  lemma ModSuccessor(x: nat, a: nat)
    requires a == 3 || a == 4
    ensures (x % a + 1) % a == (x + 1) % a
  {
    if a == 3 {
      assert (x % 3 + 1) % 3 == (x + 1) % 3;
    } else {
      assert (x % 4 + 1) % 4 == (x + 1) % 4;
    }
  }

  /** Following `next` around a face of a corners returns to the start after exactly a steps. */
  lemma NextCycleOrder(j: nat, a: nat)
    requires (a == 3 || a == 4) && j < a
    ensures NextSteps(j, a, a) == j
    ensures forall s :: 0 < s < a ==> NextSteps(j, a, s) != j
  {
    NextStepsShift(j, a, a);
    ModOnce(j + a, a);
    forall s | 0 < s < a
      ensures NextSteps(j, a, s) != j
    {
      NoEarlyReturn(j, a, s);
    }
  }

  lemma NoEarlyReturn(j: nat, a: nat, s: nat)
    requires (a == 3 || a == 4) && j < a && 0 < s < a
    ensures NextSteps(j, a, s) != j
  {
    NextStepsShift(j, a, s);
    ModOnce(j + s, a);
  }

  // ---------------------------------------------------------------------
  // Half-edge slots

  /** First half-edge slot of face k: the corner counts of the earlier faces summed. */
  function Base(indices: seq<int>, n: nat, k: nat): nat
    requires Strided(indices, n) && k <= FaceCount(indices, n)
  {
    if k == 0 then 0 else Base(indices, n, k - 1) + Arity(indices, n, k - 1)
  }

  /** Number of half-edges created by the face pass. */
  function RealHalfedgeCount(indices: seq<int>, n: nat): nat
    requires Strided(indices, n)
  {
    Base(indices, n, FaceCount(indices, n))
  }

  /** Faces are stored back to back: the slots of a later face lie above those of an earlier one. */
  lemma {:induction false} BaseMonotone(indices: seq<int>, n: nat, k: nat, k2: nat)
    requires Strided(indices, n) && k < k2 <= FaceCount(indices, n)
    ensures Base(indices, n, k) + Arity(indices, n, k) <= Base(indices, n, k2)
  {
    if k2 > k + 1 {
      BaseMonotone(indices, n, k, k2 - 1);
    }
  }

  /** With a single corner count a, face k starts at slot k * a. */
  lemma {:induction false} BaseUniform(indices: seq<int>, n: nat, a: nat, k: nat)
    requires Strided(indices, n) && k <= FaceCount(indices, n)
    requires forall k2 :: 0 <= k2 < FaceCount(indices, n) ==> Arity(indices, n, k2) == a
    ensures Base(indices, n, k) == Offset(k, a)
  {
    if k > 0 {
      BaseUniform(indices, n, a, k - 1);
    }
  }

  /** Every slot below the half-edge count belongs to exactly one face corner. */
  function SlotOwner(indices: seq<int>, n: nat, s: nat): (kj: (nat, nat))
    requires Strided(indices, n) && s < RealHalfedgeCount(indices, n)
    ensures kj.0 < FaceCount(indices, n) && kj.1 < Arity(indices, n, kj.0)
    ensures Base(indices, n, kj.0) + kj.1 == s
  {
    SlotOwnerFrom(indices, n, s, FaceCount(indices, n))
  }

  function SlotOwnerFrom(indices: seq<int>, n: nat, s: nat, k: nat): (kj: (nat, nat))
    requires Strided(indices, n) && k <= FaceCount(indices, n) && s < Base(indices, n, k)
    ensures kj.0 < k && kj.1 < Arity(indices, n, kj.0)
    ensures Base(indices, n, kj.0) + kj.1 == s
  {
    if s >= Base(indices, n, k - 1) then (k - 1, s - Base(indices, n, k - 1))
    else SlotOwnerFrom(indices, n, s, k - 1)
  }

  // ---------------------------------------------------------------------
  // Finding: the quad-aware face pass stores and reads at different slots

  /** The slots lo .. lo+a-1. */
  function Slots(lo: int, a: nat): (r: set<int>)
    ensures forall s :: s in r <==> lo <= s < lo + a
  {
    if a == 0 then {} else Slots(lo, a - 1) + {lo + a - 1}
  }

  lemma SlotsSplit(lo: int, a: nat, b: nat)
    ensures Slots(lo, a) + Slots(lo + a, b) == Slots(lo, a + b)
  {
  }

  lemma SlotsWithin(lo: int, a: nat, lo2: int, b: nat)
    requires lo2 <= lo && lo + a <= lo2 + b
    ensures Slots(lo, a) <= Slots(lo2, b)
  {
  }

  /**
   * The face pass as written in the quad-aware builder: face k stores its
   * new half-edges at slots k*n + j (Offset(k, n) + j), but then reads them back at
   * trueIndex + j, where trueIndex counts the corners of the earlier faces.
   * Result: the first face whose read hits a slot nothing was stored at
   * (a property access on `undefined`), or None.
   */
  function AsWrittenFailingFace(indices: seq<int>, n: nat, k: nat, trueIndex: nat, stored: set<int>): (r: Option<nat>)
    requires Strided(indices, n) && k <= FaceCount(indices, n)
    ensures r.Some? ==> k <= r.value < FaceCount(indices, n)
    decreases FaceCount(indices, n) - k
  {
    if k == FaceCount(indices, n) then None
    else
      var a := Arity(indices, n, k);
      var stored' := stored + Slots(Offset(k, n), a);
      if Slots(trueIndex, a) <= stored' then AsWrittenFailingFace(indices, n, k + 1, trueIndex + a, stored')
      else Some(k)
  }

  /** A triangle followed by a quad: the quad reads slot 3, which was never stored. */
  lemma MixedArityReadsUnstoredSlot()
    ensures AsWrittenFailingFace([0, 1, 2, -1, 0, 2, 3, 4], 4, 0, 0, {}) == Some(1)
  {
    var indices := [0, 1, 2, -1, 0, 2, 3, 4];
    assert Arity(indices, 4, 0) == 3;
    assert Arity(indices, 4, 1) == 4;
    assert Slots(0, 3) <= {} + Slots(0, 3);
    var stored := Slots(0, 3) + Slots(4, 4);
    assert 3 in Slots(3, 4) && 3 !in stored;
  }

  /** With one corner count throughout (all triangles, or all quads) the as-written reads are sound. */
  lemma {:induction false} UniformArityReadsStoredSlots(indices: seq<int>, n: nat, k: nat)
    requires Strided(indices, n) && k <= FaceCount(indices, n)
    requires forall k2 :: 0 <= k2 < FaceCount(indices, n) ==> Arity(indices, n, k2) == n
    ensures AsWrittenFailingFace(indices, n, k, Offset(k, n), Slots(0, Offset(k, n))) == None
    decreases FaceCount(indices, n) - k
  {
    if k < FaceCount(indices, n) {
      var o := Offset(k, n);
      assert Offset(k + 1, n) == o + n;
      assert Arity(indices, n, k) == n;
      SlotsSplit(0, o, n);
      SlotsWithin(o, n, 0, o + n);
      UniformArityReadsStoredSlots(indices, n, k + 1);
    }
  }

  /**
   * Corrected layout used by the rest of the model: store and read face k
   * at Base(k) + j. Reads then always hit the slots just stored, and the
   * slots of two different faces never overlap.
   */
  lemma ContiguousSlotsDisjoint(indices: seq<int>, n: nat, k: nat, j: nat, k2: nat, j2: nat)
    requires Strided(indices, n)
    requires k < FaceCount(indices, n) && j < Arity(indices, n, k)
    requires k2 < FaceCount(indices, n) && j2 < Arity(indices, n, k2)
    ensures Base(indices, n, k) + j == Base(indices, n, k2) + j2 <==> k == k2 && j == j2
    ensures Base(indices, n, k) + j < RealHalfedgeCount(indices, n)
  {
    if k < k2 {
      BaseMonotone(indices, n, k, k2);
    } else if k2 < k {
      BaseMonotone(indices, n, k2, k);
    }
    BaseMonotone(indices, n, k, FaceCount(indices, n));
  }

  // ---------------------------------------------------------------------
  // Edge keys and edge discovery

  /** Sorted-pair key of the undirected edge between a and b (the `${a}-${b}` map key after the swap). */
  function EdgeKey(a: int, b: int): (key: (int, int))
    ensures key.0 <= key.1
    ensures (key.0 == a && key.1 == b) || (key.0 == b && key.1 == a)
  {
    if a > b then (b, a) else (a, b)
  }

  /** Two half-edges get the same key exactly when they join the same two vertices, in either direction. */
  lemma EdgeKeyIdentifiesEndpoints(a: int, b: int, c: int, d: int)
    ensures EdgeKey(a, b) == EdgeKey(c, d) <==> (a == c && b == d) || (a == d && b == c)
  {
  }

  /** Key of the half-edge leaving corner j of face k. */
  function CornerKey(indices: seq<int>, n: nat, k: nat, j: nat): (int, int)
    requires Strided(indices, n) && k < FaceCount(indices, n) && j < Arity(indices, n, k)
  {
    EdgeKey(Corner(indices, n, k, j), Corner(indices, n, k, NextCorner(j, Arity(indices, n, k))))
  }

  /** The edge-discovery pass: the set of keys of all face sides, faces 0..k-1. */
  function DiscoverEdges(indices: seq<int>, n: nat, k: nat): (keys: set<(int, int)>)
    requires Strided(indices, n) && k <= FaceCount(indices, n)
  {
    if k == 0 then {}
    else DiscoverEdges(indices, n, k - 1) + FaceKeys(indices, n, k - 1)
  }

  function FaceKeys(indices: seq<int>, n: nat, k: nat): set<(int, int)>
    requires Strided(indices, n) && k < FaceCount(indices, n)
  {
    set j | 0 <= j < Arity(indices, n, k) :: CornerKey(indices, n, k, j)
  }

  /** The discovered keys are exactly the keys of the face sides, each sorted. */
  lemma {:induction false} DiscoverEdgesExactly(indices: seq<int>, n: nat, k: nat, key: (int, int))
    requires Strided(indices, n) && k <= FaceCount(indices, n)
    ensures key in DiscoverEdges(indices, n, k) <==>
      exists k2, j :: 0 <= k2 < k && 0 <= j < Arity(indices, n, k2) && key == CornerKey(indices, n, k2, j)
    ensures key in DiscoverEdges(indices, n, k) ==> key.0 <= key.1
  {
    if k > 0 {
      DiscoverEdgesExactly(indices, n, k - 1, key);
      if key in FaceKeys(indices, n, k - 1) {
        var j :| 0 <= j < Arity(indices, n, k - 1) && key == CornerKey(indices, n, k - 1, j);
        assert key.0 <= key.1;
      }
      if exists k2, j :: 0 <= k2 < k && 0 <= j < Arity(indices, n, k2) && key == CornerKey(indices, n, k2, j) {
        var k2, j :| 0 <= k2 < k && 0 <= j < Arity(indices, n, k2) && key == CornerKey(indices, n, k2, j);
        if k2 == k - 1 {
          assert key in FaceKeys(indices, n, k - 1);
        }
      }
    }
  }

  /**
   * The edge-discovery pass of the two builders that declare the corner
   * pair `const`: swapping a descending pair assigns to a constant, a
   * TypeError. Triangles only (stride 3); scans corner positions p onwards.
   */
  function AsWrittenConstDiscoverEdges(indices: seq<int>, p: nat, keys: set<(int, int)>): (r: Result<set<(int, int)>, string>)
    requires |indices| % 3 == 0 && p <= |indices|
    ensures r.Ok? ==> keys <= r.value
    decreases |indices| - p
  {
    if p == |indices| then Ok(keys)
    else
      var a := indices[p];
      var b := indices[SideEnd(p, |indices|)];
      if a > b then Err("TypeError: Assignment to constant variable.")
      else AsWrittenConstDiscoverEdges(indices, p + 1, keys + {(a, b)})
  }

  /** Position of the corner after corner position p, within p's triangle. */
  function SideEnd(p: nat, len: nat): (q: nat)
    requires len % 3 == 0 && p < len
    ensures q < len && q / 3 == p / 3
    ensures q % 3 == (p % 3 + 1) % 3
  {
    p - p % 3 + (p % 3 + 1) % 3
  }

  /**
   * Scanning from corner position p at or before triangle t: if triangle t
   * has three different corners, the scan throws, at an earlier descending
   * side or at one of t's own.
   */
  lemma {:induction false} ThrowsByTriangle(indices: seq<int>, p: nat, keys: set<(int, int)>, t: nat)
    requires |indices| % 3 == 0 && 3 * t + 2 < |indices| && p <= 3 * t
    requires indices[3 * t] != indices[3 * t + 1] && indices[3 * t + 1] != indices[3 * t + 2]
    requires indices[3 * t] != indices[3 * t + 2]
    ensures AsWrittenConstDiscoverEdges(indices, p, keys).Err?
    decreases 3 * t - p
  {
    var len := |indices|;
    if p < 3 * t {
      var a, b := indices[p], indices[SideEnd(p, len)];
      if a <= b {
        ThrowsByTriangle(indices, p + 1, keys + {(a, b)}, t);
      }
    } else {
      var a, b, c := indices[p], indices[p + 1], indices[p + 2];
      assert SideEnd(p, len) == p + 1;
      assert SideEnd(p + 1, len) == p + 2;
      assert SideEnd(p + 2, len) == p;
      var k1 := keys + {(a, b)};
      var k2 := k1 + {(b, c)};
      if a <= b {
        assert AsWrittenConstDiscoverEdges(indices, p, keys) == AsWrittenConstDiscoverEdges(indices, p + 1, k1);
        if b <= c {
          assert AsWrittenConstDiscoverEdges(indices, p + 1, k1) == AsWrittenConstDiscoverEdges(indices, p + 2, k2);
          assert c > a;
        }
      }
    }
  }

  /** Any triangle t with three different corners has a descending side, so the as-written discovery throws. */
  lemma DistinctTriangleThrows(indices: seq<int>, t: nat)
    requires |indices| % 3 == 0 && 3 * t + 2 < |indices|
    requires indices[3 * t] != indices[3 * t + 1] && indices[3 * t + 1] != indices[3 * t + 2]
    requires indices[3 * t] != indices[3 * t + 2]
    ensures AsWrittenConstDiscoverEdges(indices, 0, {}).Err?
  {
    ThrowsByTriangle(indices, 0, {}, t);
  }
}
