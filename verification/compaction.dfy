/**
 * What the simplifier's cleanup guarantees: the filters keep exactly the
 * live records, in order and without repeats, and the renumbering leaves
 * every survivor's idx equal to its place in its array. On a mesh that is
 * already numbered that way (a freshly built one), the cleanup, and a
 * simplification by ratio 0, change nothing.
 */
module Compaction {
  import opened Wrappers
  import opened Connectivity
  import opened Store
  import opened Holes
  import opened Construction
  import opened Decimation
  import opened Collapsing
  import Quadric

  /** Every record an array lists has its place in the array as idx. */
  ghost predicate Indexed(m: MeshFields)
  {
    InStores(m) &&
    (forall i :: 0 <= i < |m.vertices| ==> m.vertexStore[m.vertices[i]].idx == i) &&
    (forall i :: 0 <= i < |m.edges| ==> m.edgeStore[m.edges[i]].idx == i) &&
    (forall i :: 0 <= i < |m.faces| ==> m.faceStore[m.faces[i]].idx == i) &&
    (forall i :: 0 <= i < |m.halfedges| ==> m.halfedgeStore[m.halfedges[i]].idx == i)
  }

  /** No array of m lists a record twice. */
  ghost predicate AllDistinct(m: MeshFields)
  {
    Distinct(m.vertices) && Distinct(m.edges) && Distinct(m.faces) && Distinct(m.halfedges)
  }

  /** The filter keeps a reference exactly when the array lists it and its record has idx >= 0. */
  lemma {:induction false} KeptMembers<T>(store: seq<T>, idxOf: T -> int, arr: seq<int>)
    requires Kept(store, idxOf, arr).Ok?
    ensures forall x :: x in Kept(store, idxOf, arr).value <==> x in arr && 0 <= x < |store| && idxOf(store[x]) >= 0
    decreases |arr|
  {
    if arr != [] {
      var front := arr[..|arr| - 1];
      KeptMembers(store, idxOf, front);
      assert arr == front + [arr[|arr| - 1]];
    }
  }

  /** The filter keeps order: filtering a + b is filtering a, then b. */
  lemma {:induction false} KeptAppend<T>(store: seq<T>, idxOf: T -> int, a: seq<int>, b: seq<int>)
    requires Kept(store, idxOf, a + b).Ok?
    ensures Kept(store, idxOf, a).Ok? && Kept(store, idxOf, b).Ok?
    ensures Kept(store, idxOf, a + b).value == Kept(store, idxOf, a).value + Kept(store, idxOf, b).value
    decreases |b|
  {
    if b == [] {
      assert a + b == a;
    } else {
      var b' := b[..|b| - 1];
      assert (a + b)[..|a + b| - 1] == a + b';
      assert (a + b)[|a + b| - 1] == b[|b| - 1];
      KeptAppend(store, idxOf, a, b');
    }
  }

  /** The filter of an array without repeats has none. */
  lemma {:induction false} KeptDistinct<T>(store: seq<T>, idxOf: T -> int, arr: seq<int>)
    requires Kept(store, idxOf, arr).Ok? && Distinct(arr)
    ensures Distinct(Kept(store, idxOf, arr).value)
    decreases |arr|
  {
    if arr != [] {
      var front := arr[..|arr| - 1];
      var x := arr[|arr| - 1];
      assert Distinct(front);
      KeptDistinct(store, idxOf, front);
      KeptMembers(store, idxOf, front);
      assert x !in front;
    }
  }

  /** When every listed record is live, the filter keeps the whole array. */
  lemma {:induction false} KeptAllLive<T>(store: seq<T>, idxOf: T -> int, arr: seq<int>)
    requires forall j :: 0 <= j < |arr| ==> 0 <= arr[j] < |store| && idxOf(store[arr[j]]) >= 0
    ensures Kept(store, idxOf, arr) == Ok(arr)
    decreases |arr|
  {
    if arr != [] {
      var front := arr[..|arr| - 1];
      KeptAllLive(store, idxOf, front);
      assert arr == front + [arr[|arr| - 1]];
    }
  }

  /**
   * The renumbering of an array without repeats: the record at arr[i] is
   * renumbered i, and a record the array does not list is unchanged.
   */
  lemma {:induction false} RenumberedAt<T>(store: seq<T>, setIdx: (T, int) -> T, arr: seq<int>)
    requires forall i :: 0 <= i < |arr| ==> 0 <= arr[i] < |store|
    requires Distinct(arr)
    ensures forall i :: 0 <= i < |arr| ==> Renumbered(store, setIdx, arr)[arr[i]] == setIdx(store[arr[i]], i)
    ensures forall x :: 0 <= x < |store| && x !in arr ==> Renumbered(store, setIdx, arr)[x] == store[x]
    decreases |arr|
  {
    if arr != [] {
      var front := arr[..|arr| - 1];
      assert Distinct(front);
      RenumberedAt(store, setIdx, front);
      assert arr == front + [arr[|arr| - 1]];
      forall i | 0 <= i < |arr| - 1
        ensures arr[i] != arr[|arr| - 1]
      {
      }
    }
  }

  /** Renumbering records that already carry their places changes nothing. */
  lemma {:induction false} RenumberedSame<T>(store: seq<T>, setIdx: (T, int) -> T, arr: seq<int>)
    requires forall i :: 0 <= i < |arr| ==> 0 <= arr[i] < |store| && setIdx(store[arr[i]], i) == store[arr[i]]
    ensures Renumbered(store, setIdx, arr) == store
    decreases |arr|
  {
    if arr != [] {
      RenumberedSame(store, setIdx, arr[..|arr| - 1]);
    }
  }

  /**
   * The filter and the renumbering of one array without repeats: the
   * survivors have no repeats, and each carries its place as idx.
   */
  lemma KeptRenumbered<T>(store: seq<T>, idxOf: T -> int, setIdx: (T, int) -> T, arr: seq<int>)
    requires Kept(store, idxOf, arr).Ok? && Distinct(arr)
    requires forall t: T, i: int :: idxOf(setIdx(t, i)) == i
    ensures var k := Kept(store, idxOf, arr).value;
      Distinct(k) && forall i :: 0 <= i < |k| ==> idxOf(Renumbered(store, setIdx, k)[k[i]]) == i
  {
    KeptDistinct(store, idxOf, arr);
    RenumberedAt(store, setIdx, Kept(store, idxOf, arr).value);
  }

  /** The filter and the renumbering of an array whose records are live and carry their places change nothing. */
  lemma KeptRenumberedSame<T>(store: seq<T>, idxOf: T -> int, setIdx: (T, int) -> T, arr: seq<int>)
    requires forall i :: 0 <= i < |arr| ==> 0 <= arr[i] < |store| && idxOf(store[arr[i]]) == i
    requires forall t: T, i: int :: idxOf(t) == i ==> setIdx(t, i) == t
    ensures Kept(store, idxOf, arr) == Ok(arr) && Renumbered(store, setIdx, arr) == store
  {
    KeptAllLive(store, idxOf, arr);
    RenumberedSame(store, setIdx, arr);
  }

  /**
   * The cleanup of a mesh whose arrays have no repeats: when it succeeds,
   * no array has repeats and each listed record carries its place in its
   * array as idx.
   */
  lemma CompactedIndexed(m: MeshFields)
    requires AllDistinct(m) && Compacted(m).Ok?
    ensures Indexed(Compacted(m).value) && AllDistinct(Compacted(m).value)
  {
    KeptRenumbered(m.vertexStore, VertexIdx, VertexNumbered, m.vertices);
    KeptRenumbered(m.edgeStore, EdgeIdx, EdgeNumbered, m.edges);
    KeptRenumbered(m.faceStore, FaceIdx, FaceNumbered, m.faces);
    KeptRenumbered(m.halfedgeStore, HalfedgeIdx, HalfedgeNumbered, m.halfedges);
  }

  /** The cleanup, when it succeeds, leaves in each array exactly the records it listed with idx >= 0. */
  lemma CompactedLive(m: MeshFields)
    requires Compacted(m).Ok?
    ensures var c := Compacted(m).value;
      (forall x :: x in c.vertices <==> x in m.vertices && 0 <= x < |m.vertexStore| && m.vertexStore[x].idx >= 0) &&
      (forall x :: x in c.edges <==> x in m.edges && 0 <= x < |m.edgeStore| && m.edgeStore[x].idx >= 0) &&
      (forall x :: x in c.faces <==> x in m.faces && 0 <= x < |m.faceStore| && m.faceStore[x].idx >= 0) &&
      (forall x :: x in c.halfedges <==> x in m.halfedges && 0 <= x < |m.halfedgeStore| && m.halfedgeStore[x].idx >= 0)
  {
    KeptMembers(m.vertexStore, VertexIdx, m.vertices);
    KeptMembers(m.edgeStore, EdgeIdx, m.edges);
    KeptMembers(m.faceStore, FaceIdx, m.faces);
    KeptMembers(m.halfedgeStore, HalfedgeIdx, m.halfedges);
  }

  /** The cleanup of a mesh already numbered by place changes nothing. */
  lemma CompactedIndexedSame(m: MeshFields)
    requires Indexed(m)
    ensures Compacted(m) == Ok(m)
  {
    KeptRenumberedSame(m.vertexStore, VertexIdx, VertexNumbered, m.vertices);
    KeptRenumberedSame(m.edgeStore, EdgeIdx, EdgeNumbered, m.edges);
    KeptRenumberedSame(m.faceStore, FaceIdx, FaceNumbered, m.faces);
    KeptRenumberedSame(m.halfedgeStore, HalfedgeIdx, HalfedgeNumbered, m.halfedges);
  }

  /** simplify(0) on a mesh numbered by place: the goal is the face count, no edge is collapsed, and nothing changes. */
  lemma SimplifyRatioZero(m: MeshFields, pops: seq<Pop>)
    requires Indexed(m)
    ensures Simplified(m, 0.0, pops) == Ok(m)
  {
    CompactedIndexedSame(m);
  }

  /** A mesh as a builder leaves it lists every store in order, each record numbered by its place. */
  lemma BuiltIndexed(variant: Variant, containsQuad: bool, indices: seq<int>, positions: seq<Quadric.Vec3>,
                     hes: seq<Halfedge>, flags: seq<bool>, fs: seq<Face>, starts: seq<nat>, m: MeshFields)
    requires Built(variant, containsQuad, indices, positions, hes, flags, fs, starts, m)
    ensures Indexed(m) && AllDistinct(m)
  {
    var n := StrideOf(variant, containsQuad);
    var nf := FaceCount(indices, n);
    assert |FacesDone(indices, n, variant == Krasnor, nf)| == nf;
    assert m.faces == Ids(nf) && nf <= |m.faceStore|;
  }

  // ---------------------------------------------------------------------
  // The decimation loop keeps the arrays sound

  /** Every array refers into its store and lists no record twice. */
  ghost predicate Sound(m: MeshFields)
  {
    InStores(m) && AllDistinct(m)
  }

  /** Appending the fresh references lo .. hi-1 to an array of references below lo keeps it without repeats, below hi. */
  lemma AppendRange(arr: seq<int>, lo: nat, hi: nat)
    requires lo <= hi && Distinct(arr) && forall j :: 0 <= j < |arr| ==> 0 <= arr[j] < lo
    ensures Distinct(arr + Range(lo, hi))
    ensures forall j :: 0 <= j < |arr + Range(lo, hi)| ==> 0 <= (arr + Range(lo, hi))[j] < hi
  {
    var a := arr + Range(lo, hi);
    forall i, j | 0 <= i < j < |a|
      ensures a[i] != a[j]
    {
      if j >= |arr| {
        assert a[j] == lo + (j - |arr|);
        if i >= |arr| {
          assert a[i] == lo + (i - |arr|);
        } else {
          assert a[i] == arr[i];
        }
      }
    }
  }

  /**
   * One collapse keeps the arrays sound: the new vertex and the new edges
   * it lists are the records appended to their stores, so no array lists a
   * record twice and every reference stays in its store.
   */
  lemma CollapseKeepsDistinct(m: MeshFields, pop: Pop, nextVertex: int, nextEdge: int)
    requires 0 <= pop.pair < |m.edgeStore| && Collapse(m, pop, nextVertex, nextEdge).Ok?
    requires Sound(m)
    ensures Sound(Collapse(m, pop, nextVertex, nextEdge).value.0)
  {
    var en := EndsOf(m, pop.pair).value;
    var m1 := Opened(m, pop, nextVertex).value.0;
    var nv := |m.vertexStore|;
    SidesEffects(m1, en.hf, en.tw, nextEdge);
    var s := Sides(m1, en.hf, en.tw, nextEdge).value;
    TombstonedEffects(s.0, en, nv);
    var c := Tombstoned(s.0, en, nv).value;
    assert Collapse(m, pop, nextVertex, nextEdge).value == (c, s.1);
    assert |c.edgeStore| == |m.edgeStore| + s.1;
    assert c.edges == m.edges + Range(|m.edgeStore|, |m.edgeStore| + s.1);
    AppendRange(m.edges, |m.edgeStore|, |m.edgeStore| + s.1);
    assert Range(nv, nv + 1) == [nv];
    AppendRange(m.vertices, nv, nv + 1);
  }

  /** The decimation loop keeps the arrays sound, whatever the pairs the queue yields. */
  lemma {:induction false} DecimateKeepsDistinct(m: MeshFields, pops: seq<Pop>, i: nat, count: int, goal: int,
                                                nextVertex: int, nextEdge: int)
    requires i <= |pops| && Sound(m)
    requires DecimateFrom(m, pops, i, count, goal, nextVertex, nextEdge).Ok?
    ensures Sound(DecimateFrom(m, pops, i, count, goal, nextVertex, nextEdge).value.0)
    decreases |pops| - i
  {
    if count > goal && count > 0 {
      assert DecimateFrom(m, pops, i, count, goal, nextVertex, nextEdge)
          == DecimatePop(m, pops, i, count, goal, nextVertex, nextEdge);
      if m.edgeStore[pops[i].pair].idx == -1 {
        DecimateSkips(m, pops, i, count, goal, nextVertex, nextEdge);
        DecimateKeepsDistinct(m, pops, i + 1, count, goal, nextVertex, nextEdge);
      } else {
        var c := LiveCollapse(m, pops, i, count, goal, nextVertex, nextEdge);
        if c.Ok? && count - c.value.1 != 0 {
          DecimateStepped(m, pops, i, count, goal, nextVertex, nextEdge, c, c.value.0, Removed(c));
          DecimateKeepsDistinct(c.value.0, pops, i + 1, count - c.value.1, goal, nextVertex + 1, nextEdge + c.value.1);
        }
      }
    }
  }

  /** A loop pass on a popped live edge of a sound mesh: the collapse it continues from, which leaves a sound mesh. */
  lemma LiveCollapse(m: MeshFields, pops: seq<Pop>, i: nat, count: int, goal: int, nextVertex: int, nextEdge: int)
    returns (c: Result<(MeshFields, nat), BuildError>)
    requires i < |pops| && count > goal && count > 0 && Sound(m)
    requires 0 <= pops[i].pair < |m.edgeStore| && m.edgeStore[pops[i].pair].idx != -1
    ensures DecimateFrom(m, pops, i, count, goal, nextVertex, nextEdge)
         == DecimateAfter(c, pops, i, count, goal, nextVertex, nextEdge)
    ensures c.Ok? ==> Sound(c.value.0)
  {
    DecimateLive(m, pops, i, count, goal, nextVertex, nextEdge);
    c := Collapse(m, pops[i], nextVertex, nextEdge);
    if c.Ok? {
      CollapseKeepsDistinct(m, pops[i], nextVertex, nextEdge);
    }
  }

  /**
   * simplify(ratio) on a mesh a builder produced: when it succeeds, every
   * surviving vertex, edge, face and half-edge carries its place in its
   * array as idx, and no array lists a record twice.
   */
  lemma SimplifiedIndexed(variant: Variant, containsQuad: bool, indices: seq<int>, positions: seq<Quadric.Vec3>,
                          hes: seq<Halfedge>, flags: seq<bool>, fs: seq<Face>, starts: seq<nat>, m: MeshFields,
                          ratio: real, pops: seq<Pop>)
    requires Built(variant, containsQuad, indices, positions, hes, flags, fs, starts, m)
    ensures Simplified(m, ratio, pops).Ok? ==>
      Indexed(Simplified(m, ratio, pops).value) && AllDistinct(Simplified(m, ratio, pops).value)
  {
    BuiltIndexed(variant, containsQuad, indices, positions, hes, flags, fs, starts, m);
    var d := DecimateFrom(m, pops, 0, |m.faces|, Goal(|m.faces|, ratio), |m.vertices|, |m.edges|);
    if d.Ok? {
      DecimateKeepsDistinct(m, pops, 0, |m.faces|, Goal(|m.faces|, ratio), |m.vertices|, |m.edges|);
      if Compacted(d.value.0).Ok? {
        CompactedIndexed(d.value.0);
      }
    }
  }
}
