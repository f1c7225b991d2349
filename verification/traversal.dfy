/**
 * The iterators of the mesh elements: the loops that walk a face along
 * `next` and a vertex along `twin.next` until they are back where they
 * started, over a half-edge store taken as a value (they change nothing).
 *
 * A reference that names no half-edge of the store is null. Where the
 * source reads a field of null the walk ends in a TypeError; where the
 * source would loop forever the walk ends in Diverges once it has taken
 * more steps than the store has half-edges.
 */
module Traversal {
  import opened Wrappers
  import opened Store

  /** The two ways an iterator moves: along a face (`h.next`) or around the vertex h leaves (`h.twin.next`). */
  datatype Step = AlongFace | AroundVertex

  /** Reference h names a half-edge of the store. */
  predicate Present(hs: seq<Halfedge>, h: int)
  {
    0 <= h < |hs|
  }

  /** One move from half-edge h; reading `next` of a null twin is a TypeError. */
  function Advance(hs: seq<Halfedge>, step: Step, h: nat): (r: Result<int, BuildError>)
    requires h < |hs|
    ensures r.Err? <==> step == AroundVertex && !Present(hs, hs[h].twin)
  {
    match step
    case AlongFace => Ok(hs[h].next)
    case AroundVertex => if Present(hs, hs[h].twin) then Ok(hs[hs[h].twin].next) else Err(TypeError)
  }

  /** The visits r preceded by the visits v. */
  function Then<T>(v: seq<T>, r: Result<seq<T>, BuildError>): Result<seq<T>, BuildError>
  {
    if r.Ok? then Ok(v + r.value) else r
  }

  /**
   * `for (h = h0; start || h != h0; h = step(h)) fn(h)` from half-edge h
   * onwards, with fuel further steps allowed: the half-edges visited.
   */
  function OrbitFrom(hs: seq<Halfedge>, step: Step, h0: int, h: int, fuel: nat): Result<seq<int>, BuildError>
    decreases fuel
  {
    if !Present(hs, h) then Err(TypeError)
    else
      match Advance(hs, step, h)
      case Err(e) => Err(e)
      case Ok(h') =>
        if h' == h0 then Ok([h])
        else if fuel == 0 then Err(Diverges)
        else Then([h], OrbitFrom(hs, step, h0, h', fuel - 1))
  }

  /** The half-edges the iterator started at h0 visits. */
  function Orbit(hs: seq<Halfedge>, step: Step, h0: int): Result<seq<int>, BuildError>
  {
    OrbitFrom(hs, step, h0, h0, |hs|)
  }

  /** The visit after position j of the walk w, which returns to h0 after its last visit. */
  function Along(w: seq<int>, j: nat, h0: int): int
    requires j < |w|
  {
    if j + 1 < |w| then w[j + 1] else h0
  }

  /** The visit after position j of the closed walk w. */
  function Following(w: seq<int>, j: nat): int
    requires j < |w|
  {
    Along(w, j, w[0])
  }

  /** w is a closed walk under step that does not meet its start before closing. */
  ghost predicate IsCycle(hs: seq<Halfedge>, step: Step, w: seq<int>)
  {
    |w| >= 1 &&
    (forall j :: 0 <= j < |w| ==> Present(hs, w[j]) && Advance(hs, step, w[j]) == Ok(Following(w, j))) &&
    (forall j :: 0 < j < |w| ==> w[j] != w[0])
  }

  // ---------------------------------------------------------------------
  // The orbit is the closed walk from its start

  /** A walk that succeeds from h visits h first and then a closed walk back to h0. */
  lemma {:induction false} OrbitFromWalk(hs: seq<Halfedge>, step: Step, h0: int, h: int, fuel: nat)
    requires OrbitFrom(hs, step, h0, h, fuel).Ok?
    ensures
      var w := OrbitFrom(hs, step, h0, h, fuel).value;
      1 <= |w| <= fuel + 1 && w[0] == h &&
      (forall j :: 0 <= j < |w| ==> Present(hs, w[j]) && Advance(hs, step, w[j]) == Ok(Along(w, j, h0))) &&
      (forall j :: 0 < j < |w| ==> w[j] != h0)
    decreases fuel
  {
    assert Present(hs, h) && Advance(hs, step, h).Ok?;
    var h' := Advance(hs, step, h).value;
    if h' != h0 {
      OrbitFromWalk(hs, step, h0, h', fuel - 1);
      var rest := OrbitFrom(hs, step, h0, h', fuel - 1).value;
      var w := OrbitFrom(hs, step, h0, h, fuel).value;
      assert w == [h] + rest;
      forall j | 0 <= j < |w|
        ensures Present(hs, w[j]) && Advance(hs, step, w[j]) == Ok(Along(w, j, h0))
      {
        if j > 0 {
          var i := j - 1;
          assert w[j] == rest[i] && Along(w, j, h0) == Along(rest, i, h0);
        } else {
          assert w[1] == rest[0];
        }
      }
      forall j | 0 < j < |w|
        ensures w[j] != h0
      {
        var i := j - 1;
        assert w[j] == rest[i];
        if i > 0 {
          assert rest[i] != h0;
        }
      }
    }
  }

  /** A closed walk from h0 of at most |hs| + 1 visits is what the iterator visits from w[i] on. */
  lemma {:induction false} CycleIsOrbitFrom(hs: seq<Halfedge>, step: Step, w: seq<int>, i: nat)
    requires IsCycle(hs, step, w) && |w| <= |hs| + 1 && i < |w|
    ensures OrbitFrom(hs, step, w[0], w[i], |hs| - i) == Ok(w[i..])
    decreases |w| - i
  {
    assert Present(hs, w[i]) && Advance(hs, step, w[i]) == Ok(Following(w, i));
    if i + 1 < |w| {
      assert w[i + 1] != w[0];
      CycleIsOrbitFrom(hs, step, w, i + 1);
      assert w[i..] == [w[i]] + w[i + 1..];
    } else {
      assert w[i..] == [w[i]];
    }
  }

  /** What the iterator visits is a closed walk from its start. */
  lemma OrbitWalkIsCycle(hs: seq<Halfedge>, step: Step, h0: int)
    requires Orbit(hs, step, h0).Ok?
    ensures
      var w := Orbit(hs, step, h0).value;
      IsCycle(hs, step, w) && w[0] == h0 && |w| <= |hs| + 1
  {
    OrbitFromWalk(hs, step, h0, h0, |hs|);
    var w := Orbit(hs, step, h0).value;
    forall j | 0 <= j < |w|
      ensures Present(hs, w[j]) && Advance(hs, step, w[j]) == Ok(Following(w, j))
    {
    }
    forall j | 0 < j < |w|
      ensures w[j] != w[0]
    {
    }
  }

  /** The iterator started at h0 visits w exactly when w is the closed walk from h0 (of at most |hs| + 1 visits). */
  lemma OrbitIsCycle(hs: seq<Halfedge>, step: Step, h0: int, w: seq<int>)
    ensures Orbit(hs, step, h0) == Ok(w) <==> IsCycle(hs, step, w) && w[0] == h0 && |w| <= |hs| + 1
  {
    if Orbit(hs, step, h0) == Ok(w) {
      OrbitWalkIsCycle(hs, step, h0);
    }
    if IsCycle(hs, step, w) && w[0] == h0 && |w| <= |hs| + 1 {
      CycleIsOrbitFrom(hs, step, w, 0);
      assert w[0..] == w;
    }
  }

  lemma ThenNothing<T>(r: Result<seq<T>, BuildError>)
    ensures Then([], r) == r
  {
    if r.Ok? {
      assert [] + r.value == r.value;
    }
  }

  lemma ThenThen<T>(u: seq<T>, v: seq<T>, r: Result<seq<T>, BuildError>)
    ensures Then(u, Then(v, r)) == Then(u + v, r)
  {
    if r.Ok? {
      assert u + (v + r.value) == (u + v) + r.value;
    }
  }

  // ---------------------------------------------------------------------
  // The iterators

  /**
   * The loop `for (h = h0; start || h != h0; h = step(h)) fn(h, i++)` of
   * Face.halfedges and Vertex.halfedges: the half-edges it visits.
   */
  method Walk(hs: seq<Halfedge>, step: Step, h0: int) returns (r: Result<seq<int>, BuildError>)
    ensures r == Orbit(hs, step, h0)
  {
    var start := true;
    var h := h0;
    var visited: seq<int> := [];
    var i := 0;
    ThenNothing(Orbit(hs, step, h0));
    while start || h != h0
      invariant i <= |hs| + 1
      invariant start ==> i == 0 && h == h0 && visited == []
      invariant start || h != h0 ==> i <= |hs| && Orbit(hs, step, h0) == Then(visited, OrbitFrom(hs, step, h0, h, |hs| - i))
      invariant !start && h == h0 ==> Orbit(hs, step, h0) == Ok(visited)
      decreases |hs| + 1 - i
    {
      if !Present(hs, h) {
        return Err(TypeError);
      }
      visited := visited + [h];
      start := false;
      var h';
      match step {
        case AlongFace =>
          h' := hs[h].next;
        case AroundVertex =>
          var t := hs[h].twin;
          if !Present(hs, t) {
            return Err(TypeError);
          }
          h' := hs[t].next;
      }
      assert Advance(hs, step, h) == Ok(h');
      if h' != h0 {
        if i == |hs| {
          return Err(Diverges);
        }
        ThenThen(visited[..|visited| - 1], [h], OrbitFrom(hs, step, h0, h', |hs| - i - 1));
      }
      h, i := h', i + 1;
    }
    return Ok(visited);
  }

  /** Face.halfedges: the face's half-edges along `next`, from the face's own half-edge round to it. */
  method FaceHalfedges(hs: seq<Halfedge>, fs: seq<Face>, f: nat) returns (r: Result<seq<int>, BuildError>)
    requires f < |fs|
    ensures r == Orbit(hs, AlongFace, fs[f].halfedge)
    ensures r.Ok? ==> IsCycle(hs, AlongFace, r.value) && r.value[0] == fs[f].halfedge
  {
    r := Walk(hs, AlongFace, fs[f].halfedge);
    if r.Ok? {
      OrbitWalkIsCycle(hs, AlongFace, fs[f].halfedge);
    }
  }

  /** Vertex.halfedges: the half-edges leaving the vertex, along `twin.next` from its own half-edge round to it. */
  method VertexHalfedges(hs: seq<Halfedge>, vs: seq<Vertex>, v: nat) returns (r: Result<seq<int>, BuildError>)
    requires v < |vs|
    ensures r == Orbit(hs, AroundVertex, vs[v].halfedge)
    ensures r.Ok? ==> IsCycle(hs, AroundVertex, r.value) && r.value[0] == vs[v].halfedge
  {
    r := Walk(hs, AroundVertex, vs[v].halfedge);
    if r.Ok? {
      OrbitWalkIsCycle(hs, AroundVertex, vs[v].halfedge);
    }
  }

  /** The vertices the half-edges w leave. */
  function VertexRefs(hs: seq<Halfedge>, w: seq<int>): (r: seq<int>)
    requires forall j :: 0 <= j < |w| ==> 0 <= w[j] < |hs|
    ensures |r| == |w| && forall j :: 0 <= j < |w| ==> r[j] == hs[w[j]].vertex
  {
    seq(|w|, j requires 0 <= j < |w| => hs[w[j]].vertex)
  }

  /** The vertices of w[j..p]: that of w[j], then those of w[j + 1..p]. */
  lemma VertexRefsSlice(hs: seq<Halfedge>, w: seq<int>, j: nat, p: nat)
    requires forall c :: 0 <= c < |w| ==> 0 <= w[c] < |hs|
    requires j < p <= |w|
    ensures VertexRefs(hs, w[j..p]) == [hs[w[j]].vertex] + VertexRefs(hs, w[j + 1..p])
  {
    var l, r := VertexRefs(hs, w[j..p]), [hs[w[j]].vertex] + VertexRefs(hs, w[j + 1..p]);
    assert |l| == |r|;
    forall c | 0 <= c < |l|
      ensures l[c] == r[c]
    {
      if c > 0 {
        assert w[j + 1..p][c - 1] == w[j + c];
      }
    }
  }

  /** Face.vertices of the simplifier and remeshing meshes: the vertex of each half-edge Face.halfedges visits. */
  method FaceVertices(hs: seq<Halfedge>, fs: seq<Face>, f: nat) returns (r: Result<seq<int>, BuildError>)
    requires f < |fs|
    ensures r.Ok? <==> Orbit(hs, AlongFace, fs[f].halfedge).Ok?
    ensures r.Ok? ==>
      var w := Orbit(hs, AlongFace, fs[f].halfedge).value;
      |r.value| == |w| && forall j :: 0 <= j < |w| ==> Present(hs, w[j]) && r.value[j] == hs[w[j]].vertex
  {
    var w := FaceHalfedges(hs, fs, f);
    if w.Err? {
      return Err(w.error);
    }
    r := Ok(VertexRefs(hs, w.value));
  }

  /** The faces of the half-edges of w that are not on a boundary, in order. */
  function FacesOf(hs: seq<Halfedge>, w: seq<int>): (r: seq<int>)
    requires forall j :: 0 <= j < |w| ==> 0 <= w[j] < |hs|
    ensures |r| <= |w|
  {
    if w == [] then []
    else (if hs[w[0]].onBoundary then [] else [hs[w[0]].face]) + FacesOf(hs, w[1..])
  }

  /**
   * Vertex.faces from half-edge h of the walk around the vertex started at
   * h0: a half-edge on a boundary is skipped by `continue`, which leaves
   * `start` set, so the walk stops back at h0 only once it has visited a face.
   */
  function RingFacesFrom(hs: seq<Halfedge>, h0: int, h: int, started: bool, fuel: nat): Result<seq<int>, BuildError>
    decreases fuel
  {
    if !Present(hs, h) then Err(TypeError)
    else
      var started' := started || !hs[h].onBoundary;
      var visit := if hs[h].onBoundary then [] else [hs[h].face];
      match Advance(hs, AroundVertex, h)
      case Err(e) => Err(e)
      case Ok(h') =>
        if started' && h' == h0 then Ok(visit)
        else if fuel == 0 then Err(Diverges)
        else Then(visit, RingFacesFrom(hs, h0, h', started', fuel - 1))
  }

  /** Vertex.faces of the simplifier and remeshing meshes: the faces it visits. */
  function RingFaces(hs: seq<Halfedge>, h0: int): Result<seq<int>, BuildError>
  {
    RingFacesFrom(hs, h0, h0, false, |hs|)
  }

  /** Vertex.faces: the loop that skips half-edges on a boundary. */
  method VertexFaces(hs: seq<Halfedge>, vs: seq<Vertex>, v: nat) returns (r: Result<seq<int>, BuildError>)
    requires v < |vs|
    ensures r == RingFaces(hs, vs[v].halfedge)
  {
    var h0 := vs[v].halfedge;
    var start := true;
    var h := h0;
    var visited: seq<int> := [];
    var i := 0;
    ThenNothing(RingFaces(hs, h0));
    while start || h != h0
      invariant i <= |hs| + 1
      invariant i == 0 ==> start && h == h0 && visited == []
      invariant start || h != h0 ==> i <= |hs| && RingFaces(hs, h0) == Then(visited, RingFacesFrom(hs, h0, h, !start, |hs| - i))
      invariant !start && h == h0 ==> RingFaces(hs, h0) == Ok(visited)
      decreases |hs| + 1 - i
    {
      if !Present(hs, h) {
        return Err(TypeError);
      }
      ghost var visit: seq<int> := [];
      ghost var before, start0 := visited, start;
      if !hs[h].onBoundary {
        visited := visited + [hs[h].face];
        visit := [hs[h].face];
        start := false;
      }
      var t := hs[h].twin;
      if !Present(hs, t) {
        return Err(TypeError);
      }
      var h' := hs[t].next;
      assert Advance(hs, AroundVertex, h) == Ok(h') && visited == before + visit && (!start <==> !start0 || !hs[h].onBoundary);
      if start || h' != h0 {
        if i == |hs| {
          return Err(Diverges);
        }
        assert RingFacesFrom(hs, h0, h, !start0, |hs| - i) == Then(visit, RingFacesFrom(hs, h0, h', !start, |hs| - i - 1));
        ThenThen(before, visit, RingFacesFrom(hs, h0, h', !start, |hs| - i - 1));
      } else {
        assert RingFacesFrom(hs, h0, h, !start0, |hs| - i) == Ok(visit);
      }
      h, i := h', i + 1;
    }
    return Ok(visited);
  }

  /** Around a vertex whose walk is the closed walk w, Vertex.faces visits the faces of w's half-edges off the boundary. */
  lemma {:induction false} RingFacesAlong(hs: seq<Halfedge>, w: seq<int>, i: nat, started: bool)
    requires IsCycle(hs, AroundVertex, w) && |w| <= |hs| + 1 && i < |w|
    requires started || exists j :: i <= j < |w| && !hs[w[j]].onBoundary
    ensures RingFacesFrom(hs, w[0], w[i], started, |hs| - i) == Ok(FacesOf(hs, w[i..]))
    decreases |w| - i
  {
    assert Present(hs, w[i]) && Advance(hs, AroundVertex, w[i]) == Ok(Following(w, i));
    var started' := started || !hs[w[i]].onBoundary;
    var visit := if hs[w[i]].onBoundary then [] else [hs[w[i]].face];
    assert w[i..][1..] == w[i + 1..];
    assert FacesOf(hs, w[i..]) == visit + FacesOf(hs, w[i + 1..]);
    if !started' {
      var j :| i <= j < |w| && !hs[w[j]].onBoundary;
      assert j != i;
    }
    if i + 1 < |w| {
      assert w[i + 1] != w[0];
      RingFacesAlong(hs, w, i + 1, started');
    } else {
      assert Following(w, i) == w[0] && started';
      assert w[i + 1..] == [] && FacesOf(hs, []) == [];
      assert visit + [] == visit;
    }
  }

  /** Around a vertex whose half-edges are all on a boundary, Vertex.faces never stops: from position c of the walk, i visits in. */
  lemma {:induction false} RingFacesSpin(hs: seq<Halfedge>, w: seq<int>, c: nat, i: nat)
    requires IsCycle(hs, AroundVertex, w) && c < |w| && i <= |hs|
    requires forall j :: 0 <= j < |w| ==> hs[w[j]].onBoundary
    ensures RingFacesFrom(hs, w[0], w[c], false, |hs| - i) == Err(Diverges)
    decreases |hs| - i
  {
    assert Present(hs, w[c]) && Advance(hs, AroundVertex, w[c]) == Ok(Following(w, c));
    if i < |hs| {
      RingFacesSpin(hs, w, if c + 1 < |w| then c + 1 else 0, i + 1);
    }
  }

  /**
   * Vertex.faces agrees with Vertex.halfedges: when the walk around the
   * vertex closes and some of its half-edges is off the boundary, the faces
   * visited are theirs; when all are on the boundary, the loop never ends.
   */
  lemma RingFacesOfOrbit(hs: seq<Halfedge>, h0: int)
    requires Orbit(hs, AroundVertex, h0).Ok?
    ensures
      var w := Orbit(hs, AroundVertex, h0).value;
      (forall j :: 0 <= j < |w| ==> 0 <= w[j] < |hs|) &&
      RingFaces(hs, h0) == if exists j :: 0 <= j < |w| && !hs[w[j]].onBoundary then Ok(FacesOf(hs, w)) else Err(Diverges)
  {
    OrbitWalkIsCycle(hs, AroundVertex, h0);
    var w := Orbit(hs, AroundVertex, h0).value;
    if exists j :: 0 <= j < |w| && !hs[w[j]].onBoundary {
      RingFacesAlong(hs, w, 0, false);
      assert w[0..] == w;
    } else {
      RingFacesSpin(hs, w, 0, 0);
    }
  }

  // ---------------------------------------------------------------------
  // The smoothing mesh's iterators

  /**
   * The loop of the smoothing mesh's Face.vertices from half-edge h on:
   * the vertices passed to the callback until a half-edge's vertex has
   * the idx target, and how the loop ended (a TypeError is caught and
   * ends the loop).
   */
  function IdxWalkFrom(hs: seq<Halfedge>, vs: seq<Vertex>, target: int, h: int, fuel: nat): (seq<int>, Outcome<BuildError>)
    decreases fuel
  {
    if !Present(hs, h) || !(0 <= hs[h].vertex < |vs|) then ([], Fail(TypeError))
    else if vs[hs[h].vertex].idx == target then ([], Pass)
    else if fuel == 0 then ([], Fail(Diverges))
    else
      var rest := IdxWalkFrom(hs, vs, target, hs[h].next, fuel - 1);
      ([hs[h].vertex] + rest.0, rest.1)
  }

  /**
   * Face.vertices of the smoothing mesh: the first half-edge's vertex, then
   * the vertices along `next` from the second half-edge until one has the
   * first vertex's idx.
   */
  function VerticesByIdx(hs: seq<Halfedge>, vs: seq<Vertex>, first: int): (seq<int>, Outcome<BuildError>)
  {
    if !Present(hs, first) then ([], Fail(TypeError))
    else if !(0 <= hs[first].vertex < |vs|) then ([hs[first].vertex], Fail(TypeError))
    else
      var rest := IdxWalkFrom(hs, vs, vs[hs[first].vertex].idx, hs[first].next, |hs|);
      ([hs[first].vertex] + rest.0, rest.1)
  }

  /** Face.vertices of the smoothing mesh: the vertices passed to the callback, and how the loop ended. */
  method FaceVerticesByIdx(hs: seq<Halfedge>, vs: seq<Vertex>, fs: seq<Face>, f: nat) returns (visited: seq<int>, out: Outcome<BuildError>)
    requires f < |fs|
    ensures (visited, out) == VerticesByIdx(hs, vs, fs[f].halfedge)
  {
    var first := fs[f].halfedge;
    if !Present(hs, first) {
      return [], Fail(TypeError);
    }
    var second := hs[first].next;
    visited := [hs[first].vertex];
    if !(0 <= hs[first].vertex < |vs|) {
      return visited, Fail(TypeError);
    }
    var target := vs[hs[first].vertex].idx;
    var current := second;
    var i := 0;
    while true
      invariant i <= |hs|
      invariant VerticesByIdx(hs, vs, first) == (visited + IdxWalkFrom(hs, vs, target, current, |hs| - i).0, IdxWalkFrom(hs, vs, target, current, |hs| - i).1)
      decreases |hs| - i
    {
      if !Present(hs, current) || !(0 <= hs[current].vertex < |vs|) {
        assert visited + [] == visited;
        return visited, Fail(TypeError);
      }
      if target == vs[hs[current].vertex].idx {
        assert visited + [] == visited;
        return visited, Pass;
      }
      if i == |hs| {
        assert visited + [] == visited;
        return visited, Fail(Diverges);
      }
      var rest := IdxWalkFrom(hs, vs, target, hs[current].next, |hs| - i - 1);
      assert visited + ([hs[current].vertex] + rest.0) == (visited + [hs[current].vertex]) + rest.0;
      visited := visited + [hs[current].vertex];
      current := hs[current].next;
      i := i + 1;
    }
  }

  /**
   * The position after 0 of the first half-edge of w whose vertex has the
   * idx of w[0]'s vertex (|w| when there is none).
   */
  function FirstIdxRepeat(hs: seq<Halfedge>, vs: seq<Vertex>, w: seq<int>, j: nat): (p: nat)
    requires 1 <= j <= |w|
    requires forall c :: 0 <= c < |w| ==> 0 <= w[c] < |hs| && 0 <= hs[w[c]].vertex < |vs|
    ensures j <= p <= |w|
    ensures forall c :: j <= c < p ==> vs[hs[w[c]].vertex].idx != vs[hs[w[0]].vertex].idx
    ensures p < |w| ==> vs[hs[w[p]].vertex].idx == vs[hs[w[0]].vertex].idx
    decreases |w| - j
  {
    if j == |w| || vs[hs[w[j]].vertex].idx == vs[hs[w[0]].vertex].idx then j else FirstIdxRepeat(hs, vs, w, j + 1)
  }

  /** From position j of the face's closed walk w, the idx loop passes the vertices of w[j..p]. */
  lemma {:induction false} IdxWalkAlong(hs: seq<Halfedge>, vs: seq<Vertex>, w: seq<int>, j: nat)
    requires IsCycle(hs, AlongFace, w) && |w| <= |hs| + 1 && 1 <= j <= |w|
    requires forall c :: 0 <= c < |w| ==> 0 <= hs[w[c]].vertex < |vs|
    ensures
      var p := FirstIdxRepeat(hs, vs, w, j);
      IdxWalkFrom(hs, vs, vs[hs[w[0]].vertex].idx, Following(w, j - 1), |hs| + 1 - j) == (VertexRefs(hs, w[j..p]), Pass)
    decreases |w| - j
  {
    var p := FirstIdxRepeat(hs, vs, w, j);
    var target := vs[hs[w[0]].vertex].idx;
    assert Present(hs, w[j - 1]) && Advance(hs, AlongFace, w[j - 1]) == Ok(Following(w, j - 1));
    if j == |w| {
      assert Following(w, j - 1) == w[0] && w[j..p] == [];
    } else {
      assert Following(w, j - 1) == w[j];
      if vs[hs[w[j]].vertex].idx != target {
        IdxWalkAlong(hs, vs, w, j + 1);
        assert Following(w, j) == hs[w[j]].next;
        VertexRefsSlice(hs, w, j, p);
      } else {
        assert w[j..p] == [];
      }
    }
  }

  /**
   * On a face whose walk w along `next` closes, the smoothing mesh's
   * Face.vertices passes the vertices of the walk up to (not including) the
   * first later one with the first vertex's idx, and returns normally.
   */
  lemma VerticesByIdxOfOrbit(hs: seq<Halfedge>, vs: seq<Vertex>, h0: int, w: seq<int>)
    requires Orbit(hs, AlongFace, h0) == Ok(w)
    requires forall c :: 0 <= c < |w| ==> 0 <= w[c] < |hs| && 0 <= hs[w[c]].vertex < |vs|
    ensures |w| >= 1 && VerticesByIdx(hs, vs, h0) == (VertexRefs(hs, w[..FirstIdxRepeat(hs, vs, w, 1)]), Pass)
  {
    OrbitWalkIsCycle(hs, AlongFace, h0);
    var p := FirstIdxRepeat(hs, vs, w, 1);
    IdxWalkAlong(hs, vs, w, 1);
    assert Advance(hs, AlongFace, w[0]) == Ok(Following(w, 0));
    VertexRefsSlice(hs, w, 0, p);
    assert w[0..p] == w[..p];
  }

  /** On a face whose walk w along `next` closes and whose vertices have idx distinct from the first, Face.vertices passes every vertex of the face. */
  lemma VerticesByIdxWhole(hs: seq<Halfedge>, vs: seq<Vertex>, h0: int, w: seq<int>)
    requires Orbit(hs, AlongFace, h0) == Ok(w) && |w| >= 1
    requires forall c :: 0 <= c < |w| ==> 0 <= w[c] < |hs| && 0 <= hs[w[c]].vertex < |vs|
    requires forall c :: 0 < c < |w| ==> vs[hs[w[c]].vertex].idx != vs[hs[w[0]].vertex].idx
    ensures VerticesByIdx(hs, vs, h0) == (VertexRefs(hs, w), Pass)
  {
    VerticesByIdxOfOrbit(hs, vs, h0, w);
    assert FirstIdxRepeat(hs, vs, w, 1) == |w| && w[..|w|] == w;
  }

  /**
   * Vertex.forEachHalfEdge of the smoothing mesh from half-edge h of the
   * walk started at h0: it returns normally on a null half-edge.
   */
  function EachFrom(hs: seq<Halfedge>, h0: int, h: int, fuel: nat): Result<seq<int>, BuildError>
    decreases fuel
  {
    if !Present(hs, h) then Ok([])
    else
      match Advance(hs, AroundVertex, h)
      case Err(e) => Err(e)
      case Ok(h') =>
        if h' == h0 then Ok([h])
        else if fuel == 0 then Err(Diverges)
        else Then([h], EachFrom(hs, h0, h', fuel - 1))
  }

  /** Vertex.forEachHalfEdge: the half-edges passed to the callback. */
  method ForEachHalfEdge(hs: seq<Halfedge>, vs: seq<Vertex>, v: nat) returns (r: Result<seq<int>, BuildError>)
    requires v < |vs|
    ensures r == EachFrom(hs, vs[v].halfedge, vs[v].halfedge, |hs|)
  {
    var h0 := vs[v].halfedge;
    var start := true;
    var current := h0;
    var visited: seq<int> := [];
    var i := 0;
    ThenNothing(EachFrom(hs, h0, h0, |hs|));
    while start || current != h0
      invariant i <= |hs| + 1
      invariant start ==> i == 0 && current == h0 && visited == []
      invariant start || current != h0 ==> i <= |hs| && EachFrom(hs, h0, h0, |hs|) == Then(visited, EachFrom(hs, h0, current, |hs| - i))
      invariant !start && current == h0 ==> EachFrom(hs, h0, h0, |hs|) == Ok(visited)
      decreases |hs| + 1 - i
    {
      if !Present(hs, current) {
        assert visited + [] == visited;
        return Ok(visited);
      }
      visited := visited + [current];
      start := false;
      var t := hs[current].twin;
      if !Present(hs, t) {
        return Err(TypeError);
      }
      var h' := hs[t].next;
      assert Advance(hs, AroundVertex, current) == Ok(h');
      if h' != h0 {
        if i == |hs| {
          return Err(Diverges);
        }
        ThenThen(visited[..|visited| - 1], [current], EachFrom(hs, h0, h', |hs| - i - 1));
      }
      current, i := h', i + 1;
    }
    return Ok(visited);
  }

  /** Half-edge x has a twin whose `next` is null: `x.twin.next` names no half-edge. */
  predicate NullNextOfTwin(hs: seq<Halfedge>, x: int)
  {
    Present(hs, x) && Present(hs, hs[x].twin) && !Present(hs, hs[hs[x].twin].next)
  }

  /**
   * forEachHalfEdge visits what Vertex.halfedges visits. Where the walk
   * meets a null twin both fail with a TypeError; where it meets a twin
   * whose `next` is null, Vertex.halfedges fails with a TypeError while
   * forEachHalfEdge returns normally after the half-edge with that twin.
   */
  lemma {:induction false} EachAgreesWithOrbit(hs: seq<Halfedge>, h0: int, h: int, fuel: nat)
    requires Present(hs, h)
    ensures OrbitFrom(hs, AroundVertex, h0, h, fuel).Ok? ==> EachFrom(hs, h0, h, fuel) == OrbitFrom(hs, AroundVertex, h0, h, fuel)
    ensures OrbitFrom(hs, AroundVertex, h0, h, fuel) == Err(Diverges) ==> EachFrom(hs, h0, h, fuel) == Err(Diverges)
    ensures OrbitFrom(hs, AroundVertex, h0, h, fuel) == Err(TypeError) ==>
      EachFrom(hs, h0, h, fuel) == Err(TypeError) || EachFrom(hs, h0, h, fuel).Ok?
    ensures EachFrom(hs, h0, h, fuel) == Err(TypeError) ==> OrbitFrom(hs, AroundVertex, h0, h, fuel) == Err(TypeError)
    ensures EachFrom(hs, h0, h, fuel).Ok? && !OrbitFrom(hs, AroundVertex, h0, h, fuel).Ok? ==>
      OrbitFrom(hs, AroundVertex, h0, h, fuel) == Err(TypeError) &&
      |EachFrom(hs, h0, h, fuel).value| >= 1 &&
      NullNextOfTwin(hs, EachFrom(hs, h0, h, fuel).value[|EachFrom(hs, h0, h, fuel).value| - 1])
    decreases fuel
  {
    match Advance(hs, AroundVertex, h)
    case Err(e) =>
    case Ok(h') =>
      if h' != h0 && fuel > 0 {
        if Present(hs, h') {
          EachAgreesWithOrbit(hs, h0, h', fuel - 1);
          var rest := EachFrom(hs, h0, h', fuel - 1);
          if rest.Ok? {
            assert EachFrom(hs, h0, h, fuel).value == [h] + rest.value;
          }
        } else {
          assert EachFrom(hs, h0, h', fuel - 1) == Ok([]);
          assert EachFrom(hs, h0, h, fuel) == Then([h], Ok([]));
          assert OrbitFrom(hs, AroundVertex, h0, h', fuel - 1) == Err(TypeError);
        }
      }
  }
}
