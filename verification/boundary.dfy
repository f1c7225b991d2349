/**
 * The boundary pass of the half-edge builder, on values.
 *
 * After the face pass, every half-edge without a twin starts a walk along
 * the hole it borders. Each step creates a boundary half-edge as the twin
 * of the current real half-edge and finds the next real half-edge without
 * a twin by rotating around the vertex the current one runs to. When the
 * walk is back at its start, the boundary half-edges are linked into a
 * cycle in reverse visiting order, all on one new virtual face.
 *
 * The functions here give the stores before and after one hole is closed;
 * the predicates give what holds between holes, and the lemmas show that
 * closing a hole keeps it and what it means once every hole is closed.
 */
module Holes {
  import opened Connectivity
  import opened Pairing
  import opened Store

  // ---------------------------------------------------------------------
  // Cyclic neighbours in a loop of m boundary half-edges

  lemma ModBelow(x: nat, m: nat)
    requires x < m
    ensures x % m == x
  {
    assert x == 0 * m + x;
  }

  lemma ModWrap(x: nat, m: nat)
    requires 0 < m <= x < 2 * m
    ensures x % m == x - m
  {
    assert x == 1 * m + (x - m);
  }

  /** The position after j in a cycle of m. */
  function Succ(j: nat, m: nat): (r: nat)
    requires j < m
    ensures r < m
  {
    if j + 1 == m then 0 else j + 1
  }

  /** The position before j in a cycle of m. */
  function Pred(j: nat, m: nat): (r: nat)
    requires j < m
    ensures r < m
  {
    if j == 0 then m - 1 else j - 1
  }

  /** Succ and Pred are the source's (j + 1) % m and (j + m - 1) % m. */
  lemma CyclicNeighbours(j: nat, m: nat)
    requires j < m
    ensures Succ(j, m) == (j + 1) % m && Pred(j, m) == (j + m - 1) % m
  {
    if j + 1 == m { ModWrap(j + 1, m); } else { ModBelow(j + 1, m); }
    if j == 0 { ModBelow(m - 1, m); } else { ModWrap(j + m - 1, m); }
  }

  /** Succ and Pred undo each other. */
  lemma SuccPred(j: nat, m: nat)
    requires j < m
    ensures Succ(Pred(j, m), m) == j && Pred(Succ(j, m), m) == j
  {
  }

  // ---------------------------------------------------------------------
  // The inner rotation of the walk

  /** Below lo, next and prev stay below lo, and so does the twin of a half-edge flagged as twinned. */
  ghost predicate LinksWithin(hes: seq<Halfedge>, flags: seq<bool>, lo: nat)
  {
    lo <= |hes| && lo <= |flags| &&
    forall u :: 0 <= u < lo ==>
      0 <= hes[u].next < lo && 0 <= hes[u].prev < lo && (flags[u] ==> 0 <= hes[u].twin < lo)
  }

  /** One rotation step: a candidate with a twin is replaced by its twin's next. */
  function RotationStep(hes: seq<Halfedge>, flags: seq<bool>, lo: nat, r: nat): (r': nat)
    requires LinksWithin(hes, flags, lo) && r < lo
    ensures r' < lo
    ensures flags[r] ==> r' == hes[hes[r].twin].next
  {
    if flags[r] then hes[hes[r].twin].next else r
  }

  /** The s-th candidate of the rotation that looks for the half-edge after c: c.next, then twin.next while flagged. */
  function Rotation(hes: seq<Halfedge>, flags: seq<bool>, lo: nat, c: nat, s: nat): (r: nat)
    requires LinksWithin(hes, flags, lo) && c < lo
    ensures r < lo
  {
    if s == 0 then hes[c].next else RotationStep(hes, flags, lo, Rotation(hes, flags, lo, c, s - 1))
  }

  /** The first s candidates of the rotation from c are all flagged. */
  ghost predicate FlaggedBefore(hes: seq<Halfedge>, flags: seq<bool>, lo: nat, c: nat, s: nat)
    requires LinksWithin(hes, flags, lo) && c < lo
  {
    forall s' :: 0 <= s' < s ==> flags[Rotation(hes, flags, lo, c, s')]
  }

  lemma FlaggedBeforeStep(hes: seq<Halfedge>, flags: seq<bool>, lo: nat, c: nat, s: nat)
    requires LinksWithin(hes, flags, lo) && c < lo
    requires FlaggedBefore(hes, flags, lo, c, s) && flags[Rotation(hes, flags, lo, c, s)]
    ensures FlaggedBefore(hes, flags, lo, c, s + 1)
  {
  }

  /** The rotation from c stops at step s: its s-th candidate is the first without a twin. */
  ghost predicate FirstFree(hes: seq<Halfedge>, flags: seq<bool>, lo: nat, c: nat, s: nat)
    requires LinksWithin(hes, flags, lo) && c < lo
  {
    !flags[Rotation(hes, flags, lo, c, s)] && FlaggedBefore(hes, flags, lo, c, s)
  }

  /** The rotation from c never stops: every candidate has a twin. */
  ghost predicate NeverFree(hes: seq<Halfedge>, flags: seq<bool>, lo: nat, c: nat)
    requires LinksWithin(hes, flags, lo) && c < lo
  {
    forall s :: flags[Rotation(hes, flags, lo, c, s)]
  }

  /** Once a candidate repeats, the rotation repeats with the same period. */
  lemma {:induction false} RotationPeriodic(hes: seq<Halfedge>, flags: seq<bool>, lo: nat, c: nat, a: nat, d: nat, x: nat)
    requires LinksWithin(hes, flags, lo) && c < lo && a <= x
    requires Rotation(hes, flags, lo, c, a + d) == Rotation(hes, flags, lo, c, a)
    ensures Rotation(hes, flags, lo, c, x + d) == Rotation(hes, flags, lo, c, x)
    decreases x
  {
    if x > a {
      RotationPeriodic(hes, flags, lo, c, a, d, x - 1);
    }
  }

  /** A candidate met twice, all flagged until then, means the rotation never stops. */
  lemma RepeatNeverFree(hes: seq<Halfedge>, flags: seq<bool>, lo: nat, c: nat, a: nat, b: nat)
    requires LinksWithin(hes, flags, lo) && c < lo && a < b
    requires Rotation(hes, flags, lo, c, a) == Rotation(hes, flags, lo, c, b)
    requires FlaggedBefore(hes, flags, lo, c, b)
    ensures NeverFree(hes, flags, lo, c)
  {
    forall s: nat
      ensures flags[Rotation(hes, flags, lo, c, s)]
    {
      FlaggedFrom(hes, flags, lo, c, a, b, s);
    }
  }

  lemma {:induction false} FlaggedFrom(hes: seq<Halfedge>, flags: seq<bool>, lo: nat, c: nat, a: nat, b: nat, s: nat)
    requires LinksWithin(hes, flags, lo) && c < lo && a < b
    requires Rotation(hes, flags, lo, c, a) == Rotation(hes, flags, lo, c, b)
    requires FlaggedBefore(hes, flags, lo, c, b)
    ensures flags[Rotation(hes, flags, lo, c, s)]
    decreases s
  {
    if s >= b {
      var d := b - a;
      RotationPeriodic(hes, flags, lo, c, a, d, s - d);
      FlaggedFrom(hes, flags, lo, c, a, b, s - d);
    }
  }

  /** Below lo, hes' has the next and prev pointers of hes, and the twins of its flagged half-edges. */
  ghost predicate SameLinks(hes: seq<Halfedge>, hes': seq<Halfedge>, flags: seq<bool>, lo: nat)
    requires lo <= |hes| && lo <= |hes'| && lo <= |flags|
  {
    forall u :: 0 <= u < lo ==>
      hes'[u].next == hes[u].next && hes'[u].prev == hes[u].prev && (flags[u] ==> hes'[u].twin == hes[u].twin)
  }

  // ---------------------------------------------------------------------
  // One hole

  /** No half-edge occurs twice. */
  predicate Distinct(walk: seq<int>)
  {
    forall i, j :: 0 <= i < j < |walk| ==> walk[i] != walk[j]
  }

  /** Every `boundaries` entry is a virtual face. */
  predicate AllVirtual(bs: seq<Boundary>)
  {
    forall k :: 0 <= k < |bs| ==> bs[k].VirtualFace?
  }

  /** The virtual faces of such a list, in order. */
  function VirtualFaces(bs: seq<Boundary>): (r: seq<int>)
    requires AllVirtual(bs)
    ensures |r| == |bs| && forall k :: 0 <= k < |bs| ==> r[k] == bs[k].face
  {
    seq(|bs|, k requires 0 <= k < |bs| => bs[k].face)
  }

  /** The references 0 .. n-1 are distinct and lie below n. */
  lemma IdsDistinct(n: nat)
    ensures Distinct(Ids(n)) && Below(Ids(n), n)
  {
  }

  /** Every reference lies below lo. */
  predicate Below(walk: seq<int>, lo: nat)
  {
    forall i :: 0 <= i < |walk| ==> 0 <= walk[i] < lo
  }

  /** Where u first occurs. */
  function Position(walk: seq<int>, u: int): (j: nat)
    requires u in walk
    ensures j < |walk| && walk[j] == u
    ensures forall i :: 0 <= i < j ==> walk[i] != u
  {
    if walk[0] == u then 0 else 1 + Position(walk[1..], u)
  }

  /** The store's half-edges once the walk has set their twins: the j-th one visited points at |hes| + j. */
  function Closing(hes: seq<Halfedge>, walk: seq<int>): (r: seq<Halfedge>)
    ensures |r| == |hes|
  {
    seq(|hes|, u requires 0 <= u < |hes| => if u in walk then hes[u].(twin := |hes| + Position(walk, u)) else hes[u])
  }

  /**
   * The boundary half-edge created at step j of a walk along `path` (the
   * half-edges visited, then the one it went on to): it leaves the vertex
   * of the next visited half-edge, lies on the edge of the one it closes,
   * and is its twin; next and prev are not linked yet.
   */
  function WalkRecord(hes: seq<Halfedge>, path: seq<int>, f: int, j: nat): Halfedge
    requires j + 1 < |path| && Below(path, |hes|)
  {
    Halfedge(hes[path[j + 1]].vertex, hes[path[j]].edge, f, -1, -1, path[j], -1, true)
  }

  /** The boundary half-edges created by a walk that has visited `walk` and stands at `current`. */
  function WalkRecords(hes: seq<Halfedge>, walk: seq<int>, current: int, f: int): (r: seq<Halfedge>)
    requires Below(walk + [current], |hes|)
    ensures |r| == |walk|
  {
    seq(|walk|, j requires 0 <= j < |walk| => WalkRecord(hes, walk + [current], f, j))
  }

  /** The store during a walk that has visited `walk` and stands at `current`. */
  function Walked(hes: seq<Halfedge>, walk: seq<int>, current: int, f: int): (r: seq<Halfedge>)
    requires Below(walk + [current], |hes|)
    ensures |r| == |hes| + |walk|
  {
    Closing(hes, walk) + WalkRecords(hes, walk, current, f)
  }

  /**
   * Boundary half-edge j of a closed loop of m: the twin of the j-th real
   * half-edge visited, leaving the vertex of the one visited after it, with
   * next the one created before it and prev the one created after it.
   */
  function LoopRecord(hes: seq<Halfedge>, walk: seq<int>, f: int, j: nat): (h: Halfedge)
    requires j < |walk| && Below(walk, |hes|)
    ensures h.twin == walk[j] && h.face == f && h.onBoundary && h.idx == -1
    ensures h.next == |hes| + Pred(j, |walk|) && h.prev == |hes| + Succ(j, |walk|)
  {
    var m := |walk|;
    Halfedge(hes[walk[Succ(j, m)]].vertex, hes[walk[j]].edge, f, |hes| + Succ(j, m), |hes| + Pred(j, m), walk[j], -1, true)
  }

  /** The store while the loop is linked: the first j boundary half-edges have their next and prev. */
  function Linking(hes: seq<Halfedge>, walk: seq<int>, f: int, j: nat): (r: seq<Halfedge>)
    requires j <= |walk| && Below(walk, |hes|)
    ensures |r| == |hes| + |walk|
  {
    Closing(hes, walk) +
    seq(|walk|, i requires 0 <= i < |walk| =>
      if i < j then LoopRecord(hes, walk, f, i) else LoopRecord(hes, walk, f, i).(prev := -1, next := -1))
  }

  /** The flags while the loop is linked: the first j boundary half-edges and the half-edges they close are flagged. */
  function LinkingFlags(flags: seq<bool>, walk: seq<int>, j: nat): (r: seq<bool>)
    requires j <= |walk|
    ensures |r| == |flags| + |walk|
  {
    seq(|flags|, u requires 0 <= u < |flags| => flags[u] || u in walk[..j]) + seq(|walk|, i => i < j)
  }

  /** Before the first step the walk has changed nothing. */
  lemma WalkStart(hes: seq<Halfedge>, c: int, f: int)
    requires 0 <= c < |hes|
    ensures Walked(hes, [], c, f) == hes
  {
  }

  /**
   * One step of the walk: the new boundary half-edge is appended and
   * becomes the twin of the current half-edge.
   */
  lemma WalkStep(hes: seq<Halfedge>, walk: seq<int>, current: int, next: int, f: int)
    requires 0 <= current < |hes| && 0 <= next < |hes| && current !in walk
    requires Below(walk + [current], |hes|)
    ensures Below(walk + [current] + [next], |hes|)
    ensures
      (Walked(hes, walk, current, f) + [Halfedge(hes[next].vertex, hes[current].edge, f, -1, -1, current, -1, true)])
        [current := Walked(hes, walk, current, f)[current].(twin := |Walked(hes, walk, current, f)|)]
      == Walked(hes, walk + [current], next, f)
  {
    var p := walk + [current] + [next];
    forall t | 0 <= t < |p| ensures 0 <= p[t] < |hes| {
      if t < |walk| + 1 { assert p[t] == (walk + [current])[t]; }
    }
    var c := Closing(hes, walk);
    var rec := Halfedge(hes[next].vertex, hes[current].edge, f, -1, -1, current, -1, true);
    var rs := WalkRecords(hes, walk, current, f);
    assert Walked(hes, walk, current, f)[current] == c[current];
    UpdateInPrefix(c, rs + [rec], current, c[current].(twin := |hes| + |walk|));
    assert Walked(hes, walk, current, f) + [rec] == c + (rs + [rec]);
    ClosingStep(hes, walk, current);
    RecordsStep(hes, walk, current, next, f);
  }

  lemma UpdateInPrefix<T>(a: seq<T>, b: seq<T>, i: nat, v: T)
    requires i < |a|
    ensures (a + b)[i := v] == a[i := v] + b
  {
  }

  /** The walk sets the twin of the current half-edge to the boundary half-edge it creates. */
  lemma ClosingStep(hes: seq<Halfedge>, walk: seq<int>, current: int)
    requires 0 <= current < |hes| && current !in walk
    ensures Closing(hes, walk)[current := Closing(hes, walk)[current].(twin := |hes| + |walk|)] == Closing(hes, walk + [current])
  {
    var walk' := walk + [current];
    assert walk'[|walk|] == current;
    assert Position(walk', current) == |walk|;
    forall u | 0 <= u < |hes| && u in walk
      ensures Position(walk', u) == Position(walk, u)
    {
      PositionSnoc(walk, current, u);
    }
  }

  /** The record the walk creates extends the records created so far. */
  lemma RecordsStep(hes: seq<Halfedge>, walk: seq<int>, current: int, next: int, f: int)
    requires 0 <= current < |hes| && 0 <= next < |hes|
    requires Below(walk + [current], |hes|) && Below(walk + [current] + [next], |hes|)
    ensures WalkRecords(hes, walk, current, f) + [Halfedge(hes[next].vertex, hes[current].edge, f, -1, -1, current, -1, true)]
            == WalkRecords(hes, walk + [current], next, f)
  {
    var walk' := walk + [current];
    assert (walk' + [next])[|walk|] == current && (walk' + [next])[|walk| + 1] == next;
  }

  lemma PositionSnoc(walk: seq<int>, x: int, u: int)
    requires u in walk
    ensures Position(walk + [x], u) == Position(walk, u)
  {
    var i, j := Position(walk, u), Position(walk + [x], u);
    assert (walk + [x])[i] == u;
    if j < |walk| {
      assert walk[j] == u;
    }
  }

  /** A walk back at its start is a loop ready to be linked. */
  lemma LinkingStart(hes: seq<Halfedge>, walk: seq<int>, f: int)
    requires |walk| >= 1 && Below(walk, |hes|)
    ensures Below(walk + [walk[0]], |hes|)
    ensures Walked(hes, walk, walk[0], f) == Linking(hes, walk, f, 0)
  {
    var m := |walk|;
    forall j | 0 <= j < m
      ensures WalkRecord(hes, walk + [walk[0]], f, j) == LoopRecord(hes, walk, f, j).(prev := -1, next := -1)
    {
      assert (walk + [walk[0]])[j + 1] == walk[Succ(j, m)];
    }
  }

  /** Linking boundary half-edge j sets its next and prev. */
  lemma LinkingStep(hes: seq<Halfedge>, walk: seq<int>, f: int, j: nat)
    requires j < |walk| && Below(walk, |hes|)
    ensures
      Linking(hes, walk, f, j)[|hes| + j := Linking(hes, walk, f, j)[|hes| + j].(next := |hes| + Pred(j, |walk|), prev := |hes| + Succ(j, |walk|))]
      == Linking(hes, walk, f, j + 1)
  {
  }

  /** Flagging boundary half-edge j and the half-edge it closes. */
  lemma LinkingFlagsStep(flags: seq<bool>, walk: seq<int>, j: nat)
    requires j < |walk| && Below(walk, |flags|)
    ensures LinkingFlags(flags, walk, j)[|flags| + j := true][walk[j] := true] == LinkingFlags(flags, walk, j + 1)
  {
    assert walk[..j + 1] == walk[..j] + [walk[j]];
  }

  /** The boundary half-edges enter unflagged (an absent map entry reads as false). */
  lemma LinkingFlagsStart(flags: seq<bool>, walk: seq<int>)
    ensures flags + seq(|walk|, _ => false) == LinkingFlags(flags, walk, 0)
  {
  }

  // ---------------------------------------------------------------------
  // Between holes

  /**
   * What the boundary pass relies on in half-edge u of the store the face
   * pass leaves: next and prev are inverse and stay on the face, it is not
   * on a boundary, it is flagged exactly when it has a twin, and a twin is
   * another flagged half-edge on the same edge.
   */
  ghost predicate ReadyAt(base: seq<Halfedge>, baseFlags: seq<bool>, u: nat)
    requires u < |base| == |baseFlags|
  {
    0 <= base[u].next < |base| && 0 <= base[u].prev < |base| &&
    base[base[u].next].prev == u && base[base[u].prev].next == u && base[base[u].next].face == base[u].face &&
    !base[u].onBoundary && (baseFlags[u] <==> base[u].twin != -1) &&
    (base[u].twin != -1 ==>
       0 <= base[u].twin < |base| && base[u].twin != u && baseFlags[base[u].twin] && base[base[u].twin].edge == base[u].edge)
  }

  ghost predicate Ready(base: seq<Halfedge>, baseFlags: seq<bool>)
  {
    |base| == |baseFlags| && forall u :: 0 <= u < |base| ==> ReadyAt(base, baseFlags, u)
  }

  /**
   * Real half-edge u between holes: only its twin may have changed; a twin
   * from the face pass is kept; a half-edge closed by a hole is flagged and
   * is the mutual twin of a boundary half-edge; an unflagged one is still
   * without a twin; and every half-edge the scan has passed is flagged.
   */
  ghost predicate RealAt(base: seq<Halfedge>, baseFlags: seq<bool>, hes: seq<Halfedge>, flags: seq<bool>, i: nat, u: nat)
    requires u < |base| == |baseFlags| <= |hes| == |flags|
  {
    hes[u] == base[u].(twin := hes[u].twin) &&
    (baseFlags[u] ==> flags[u] && hes[u].twin == base[u].twin) &&
    (!baseFlags[u] && flags[u] ==> |base| <= hes[u].twin < |hes| && hes[hes[u].twin].twin == u) &&
    (!flags[u] ==> hes[u].twin == -1) &&
    (u < i ==> flags[u])
  }

  /**
   * Boundary half-edge u between holes: flagged, on the boundary, not yet
   * indexed, the mutual twin of a real half-edge that had no twin after the
   * face pass, on that half-edge's edge, and linked to boundary half-edges
   * of its own face by inverse next and prev.
   */
  ghost predicate BoundaryAt(base: seq<Halfedge>, baseFlags: seq<bool>, hes: seq<Halfedge>, flags: seq<bool>, u: nat)
    requires |base| == |baseFlags| <= u < |hes| == |flags|
  {
    flags[u] && hes[u].onBoundary && hes[u].idx == -1 &&
    0 <= hes[u].twin < |base| && !baseFlags[hes[u].twin] && flags[hes[u].twin] && hes[hes[u].twin].twin == u &&
    hes[u].edge == base[hes[u].twin].edge &&
    |base| <= hes[u].next < |hes| && |base| <= hes[u].prev < |hes| && hes[hes[u].next].prev == u && hes[hes[u].prev].next == u &&
    hes[hes[u].next].face == hes[u].face
  }

  /** The store and flags after the scan has reached real half-edge i. */
  ghost predicate Between(base: seq<Halfedge>, baseFlags: seq<bool>, hes: seq<Halfedge>, flags: seq<bool>, i: nat)
  {
    |base| == |baseFlags| <= |hes| == |flags| && i <= |base| &&
    (forall u :: 0 <= u < |base| ==> RealAt(base, baseFlags, hes, flags, i, u)) &&
    (forall u :: |base| <= u < |hes| ==> BoundaryAt(base, baseFlags, hes, flags, u))
  }

  /** Loop q occupies half-edges starts[q] .. starts[q+1]-1, all on virtual face nf + q, which points at the last of them. */
  ghost predicate LoopAt(hes: seq<Halfedge>, fs: seq<Face>, nf: nat, starts: seq<nat>, q: nat)
    requires q + 1 < |starts| && nf + q < |fs|
  {
    starts[q] < starts[q + 1] <= |hes| &&
    fs[nf + q] == Face(starts[q + 1] - 1, -1, false) &&
    forall u :: starts[q] <= u < starts[q + 1] ==>
      hes[u].face == nf + q && starts[q] <= hes[u].next < starts[q + 1] && starts[q] <= hes[u].prev < starts[q + 1]
  }

  /**
   * The loops closed so far: they fill the store from the first boundary
   * half-edge on, one virtual face each, appended after the nf faces
   * of the face pass.
   */
  ghost predicate Loops(hes: seq<Halfedge>, fs0: seq<Face>, fs: seq<Face>, starts: seq<nat>, lo: nat)
  {
    |starts| >= 1 && starts[0] == lo && starts[|starts| - 1] == |hes| &&
    (forall q :: 0 <= q < |starts| ==> lo <= starts[q] <= |hes|) &&
    |fs| == |fs0| + |starts| - 1 && fs[..|fs0|] == fs0 &&
    forall q :: 0 <= q < |starts| - 1 ==> LoopAt(hes, fs, |fs0|, starts, q)
  }

  /** References lo .. hi-1, in order (none when hi <= lo). */
  function Range(lo: nat, hi: nat): (r: seq<int>)
    ensures |r| == (if lo <= hi then hi - lo else 0)
    ensures forall i :: 0 <= i < |r| ==> r[i] == lo + i
  {
    if hi <= lo then [] else seq(hi - lo, i => lo + i)
  }

  /**
   * The `boundaries` entry of the loop of half-edges lo .. hi-1 on virtual
   * face f: the simplifier's builder keeps the loop's half-edges, the
   * parameterisation and remeshing builders keep the virtual face.
   */
  function Entry(variant: Variant, lo: nat, hi: nat, f: int): (b: Boundary)
    ensures variant == Krasnor ==>
      b.Cycle? && (lo <= hi ==> |b.loop| == hi - lo) && forall i :: 0 <= i < |b.loop| ==> b.loop[i] == lo + i
    ensures variant != Krasnor ==> b == VirtualFace(f)
  {
    if variant == Krasnor then Cycle(Range(lo, hi)) else VirtualFace(f)
  }

  /** The `boundaries` list for loops starting at `starts`; the smoothing builder keeps nothing. */
  function BoundaryEntries(variant: Variant, starts: seq<nat>, nf: nat): (r: seq<Boundary>)
    requires |starts| >= 1
    ensures variant == Torantie ==> r == []
    ensures variant != Torantie ==> |r| == |starts| - 1
    decreases |starts|
  {
    if variant == Torantie || |starts| == 1 then
      []
    else
      var k := |starts| - 1;
      BoundaryEntries(variant, starts[..k], nf) + [Entry(variant, starts[k - 1], starts[k], nf + k - 1)]
  }

  /** Entry q of the list is the loop from starts[q] to starts[q+1], on virtual face nf + q. */
  lemma {:induction false} EntriesAt(variant: Variant, starts: seq<nat>, nf: nat, q: nat)
    requires variant != Torantie && q + 1 < |starts|
    ensures BoundaryEntries(variant, starts, nf)[q] == Entry(variant, starts[q], starts[q + 1], nf + q)
    decreases |starts|
  {
    var k := |starts| - 1;
    if q + 1 < k {
      EntriesAt(variant, starts[..k], nf, q);
    }
  }

  /** The remeshing builder's entries are the virtual faces nf, nf+1, ..., one per loop. */
  lemma VirtualEntries(starts: seq<nat>, nf: nat)
    requires |starts| >= 1
    ensures AllVirtual(BoundaryEntries(Changkun, starts, nf))
    ensures VirtualFaces(BoundaryEntries(Changkun, starts, nf)) == Range(nf, nf + |starts| - 1)
  {
    var r := BoundaryEntries(Changkun, starts, nf);
    forall q | 0 <= q < |r|
      ensures r[q] == VirtualFace(nf + q)
    {
      EntriesAt(Changkun, starts, nf, q);
    }
  }

  /** A walk that can close the hole at i: it starts at i and visits distinct unflagged half-edges of the store. */
  ghost predicate HoleWalk(hes: seq<Halfedge>, flags: seq<bool>, walk: seq<int>, i: nat)
  {
    |hes| == |flags| && 1 <= |walk| && walk[0] == i && Distinct(walk) &&
    forall j :: 0 <= j < |walk| ==> 0 <= walk[j] < |hes| && !flags[walk[j]]
  }

  /** Every half-edge of the walk is in the store and unflagged. */
  ghost predicate Unflagged(flags: seq<bool>, walk: seq<int>)
  {
    forall t :: 0 <= t < |walk| ==> 0 <= walk[t] < |flags| && !flags[walk[t]]
  }

  /**
   * The walk along `path` follows the rotation: from each visited half-edge
   * the rotation stops, after steps[t] steps, at the next one on the path.
   */
  ghost predicate Follows(hes: seq<Halfedge>, flags: seq<bool>, path: seq<int>, steps: seq<nat>)
    requires LinksWithin(hes, flags, |hes|)
  {
    |steps| + 1 == |path| && Below(path, |hes|) &&
    forall t :: 0 <= t < |steps| ==>
      0 <= path[t] < |hes| &&
      FirstFree(hes, flags, |hes|, path[t], steps[t]) && Rotation(hes, flags, |hes|, path[t], steps[t]) == path[t + 1]
  }

  /**
   * The walk from i never comes back: it follows the rotation along `path`
   * without repeats until the rotation around the last half-edge never
   * stops, or until it meets again a half-edge it visited after i.
   */
  ghost predicate Stuck(hes: seq<Halfedge>, flags: seq<bool>, i: nat, path: seq<int>, steps: seq<nat>)
    requires LinksWithin(hes, flags, |hes|)
  {
    Follows(hes, flags, path, steps) && path[0] == i && Distinct(path[..|path| - 1]) &&
    (NeverFree(hes, flags, |hes|, path[|path| - 1]) || (|path| >= 2 && path[|path| - 1] in path[1..|path| - 1]))
  }

  /** The store w extends hes and keeps the vertex and the edge of each of its half-edges. */
  ghost predicate SameEnds(hes: seq<Halfedge>, w: seq<Halfedge>)
  {
    |hes| <= |w| && forall u :: 0 <= u < |hes| ==> w[u].vertex == hes[u].vertex && w[u].edge == hes[u].edge
  }

  /** The walk changes no vertex and no edge of a half-edge of the store. */
  lemma WalkedEnds(hes: seq<Halfedge>, walk: seq<int>, current: int, f: int)
    requires Below(walk + [current], |hes|)
    ensures SameEnds(hes, Walked(hes, walk, current, f))
  {
    var w := Walked(hes, walk, current, f);
    forall u | 0 <= u < |hes| ensures w[u].vertex == hes[u].vertex && w[u].edge == hes[u].edge {
      assert w[u] == Closing(hes, walk)[u];
    }
  }

  /** The virtual face of a walk that has visited `walk`: it points at the last boundary half-edge created. */
  function OpenFace(hes: seq<Halfedge>, walk: seq<int>): (g: Face)
    ensures walk != [] ==> g.halfedge == |hes| + |walk| - 1
  {
    Face(if walk == [] then -1 else |hes| + |walk| - 1, -1, false)
  }

  /** While the walk runs, the store below the first boundary half-edge keeps the links the rotation reads. */
  lemma WalkedSameLinks(hes: seq<Halfedge>, flags: seq<bool>, walk: seq<int>, current: int, f: int)
    requires |flags| == |hes| && Below(walk + [current], |hes|) && Unflagged(flags, walk)
    ensures SameLinks(hes, Walked(hes, walk, current, f) + [NewHalfedge], flags, |hes|)
  {
    var w := Walked(hes, walk, current, f) + [NewHalfedge];
    forall u | 0 <= u < |hes|
      ensures w[u].next == hes[u].next && w[u].prev == hes[u].prev && (flags[u] ==> w[u].twin == hes[u].twin)
    {
      assert w[u] == Closing(hes, walk)[u];
      if u in walk {
        assert walk[Position(walk, u)] == u;
      }
    }
  }

  /**
   * A walk from i in progress: it has visited the distinct unflagged
   * half-edges `walk`, stands at the unflagged `current` it has not visited
   * yet, and has followed the rotation so far.
   */
  ghost predicate WalkState(hes: seq<Halfedge>, flags: seq<bool>, i: nat, walk: seq<int>, current: int, steps: seq<nat>)
    requires LinksWithin(hes, flags, |hes|)
  {
    |flags| == |hes| && i < |hes| && 0 <= current < |hes| && !flags[current] && current !in walk &&
    (if walk == [] then current == i else walk[0] == i) &&
    Distinct(walk) && Unflagged(flags, walk) && Below(walk + [current], |hes|) &&
    Follows(hes, flags, walk + [current], steps)
  }

  /** Extending a path that follows the rotation by one rotation. */
  lemma FollowsSnoc(hes: seq<Halfedge>, flags: seq<bool>, path: seq<int>, steps: seq<nat>, next: nat, s: nat)
    requires LinksWithin(hes, flags, |hes|) && Follows(hes, flags, path, steps)
    requires FirstFree(hes, flags, |hes|, path[|path| - 1], s) && Rotation(hes, flags, |hes|, path[|path| - 1], s) == next
    ensures Follows(hes, flags, path + [next], steps + [s])
  {
    var p, st := path + [next], steps + [s];
    forall t | 0 <= t < |st|
      ensures 0 <= p[t] < |hes| && FirstFree(hes, flags, |hes|, p[t], st[t]) && Rotation(hes, flags, |hes|, p[t], st[t]) == p[t + 1]
    {
      if t < |steps| {
        assert p[t] == path[t] && p[t + 1] == path[t + 1] && st[t] == steps[t];
      }
    }
  }

  /** A walk closing a hole visits only real half-edges. */
  lemma WalkIsReal(base: seq<Halfedge>, baseFlags: seq<bool>, hes: seq<Halfedge>, flags: seq<bool>, i: nat, walk: seq<int>)
    requires Between(base, baseFlags, hes, flags, i) && HoleWalk(hes, flags, walk, i)
    ensures Below(walk, |base|)
  {
    forall t | 0 <= t < |walk| ensures 0 <= walk[t] < |base| {
      UnflaggedIsReal(base, baseFlags, hes, flags, i, walk[t]);
    }
  }

  /** The walk starts at i. */
  lemma WalkBegins(hes: seq<Halfedge>, flags: seq<bool>, i: nat)
    requires LinksWithin(hes, flags, |hes|) && |flags| == |hes| && i < |hes| && !flags[i]
    ensures WalkState(hes, flags, i, [], i, [])
  {
    assert [] + [i] == [i];
  }

  /** The rotation from the current half-edge stops at a new half-edge other than i: the walk goes on there. */
  lemma WalkAdvances(hes: seq<Halfedge>, flags: seq<bool>, i: nat, walk: seq<int>, current: int, steps: seq<nat>, next: nat, s: nat)
    requires LinksWithin(hes, flags, |hes|) && WalkState(hes, flags, i, walk, current, steps)
    requires FirstFree(hes, flags, |hes|, current, s) && Rotation(hes, flags, |hes|, current, s) == next
    requires next != i && next !in walk + [current]
    ensures WalkState(hes, flags, i, walk + [current], next, steps + [s])
  {
    var w := walk + [current];
    FollowsSnoc(hes, flags, w, steps, next, s);
    assert w[0] == i;
    forall a, b | 0 <= a < b < |w| ensures w[a] != w[b] {
      if b < |walk| { assert w[a] == walk[a] && w[b] == walk[b]; }
      else { assert w[a] == walk[a]; }
    }
    forall t | 0 <= t < |w| ensures 0 <= w[t] < |flags| && !flags[w[t]] {
      if t < |walk| { assert w[t] == walk[t]; }
    }
    var w' := w + [next];
    forall t | 0 <= t < |w'| ensures 0 <= w'[t] < |hes| {
      if t < |w| { assert w'[t] == (walk + [current])[t]; }
    }
  }

  /** The rotation from the current half-edge leads back to i: the walk is closed. */
  lemma WalkCloses(hes: seq<Halfedge>, flags: seq<bool>, i: nat, walk: seq<int>, current: int, steps: seq<nat>, s: nat)
    requires LinksWithin(hes, flags, |hes|) && WalkState(hes, flags, i, walk, current, steps)
    requires FirstFree(hes, flags, |hes|, current, s) && Rotation(hes, flags, |hes|, current, s) == i
    ensures HoleWalk(hes, flags, walk + [current], i)
    ensures Follows(hes, flags, walk + [current] + [i], steps + [s])
  {
    var w := walk + [current];
    FollowsSnoc(hes, flags, w, steps, i, s);
    assert w[0] == i;
    forall a, b | 0 <= a < b < |w| ensures w[a] != w[b] {
      if b < |walk| { assert w[a] == walk[a] && w[b] == walk[b]; }
      else { assert w[a] == walk[a]; }
    }
    forall t | 0 <= t < |w| ensures 0 <= w[t] < |hes| && !flags[w[t]] {
      if t < |walk| { assert w[t] == walk[t]; }
    }
  }

  /** The rotation from the current half-edge leads to one visited after i: the walk would go round forever. */
  lemma WalkRevisits(hes: seq<Halfedge>, flags: seq<bool>, i: nat, walk: seq<int>, current: int, steps: seq<nat>, next: nat, s: nat)
    requires LinksWithin(hes, flags, |hes|) && WalkState(hes, flags, i, walk, current, steps)
    requires FirstFree(hes, flags, |hes|, current, s) && Rotation(hes, flags, |hes|, current, s) == next
    requires next != i && next in walk + [current]
    ensures Stuck(hes, flags, i, walk + [current] + [next], steps + [s])
  {
    var w := walk + [current];
    var p := w + [next];
    FollowsSnoc(hes, flags, w, steps, next, s);
    assert p[..|p| - 1] == w && p[|p| - 1] == next;
    assert w[0] == i;
    forall a, b | 0 <= a < b < |w| ensures w[a] != w[b] {
      if b < |walk| { assert w[a] == walk[a] && w[b] == walk[b]; }
      else { assert w[a] == walk[a]; }
    }
    var k :| 0 <= k < |w| && w[k] == next;
    assert k != 0;
    assert p[1..|p| - 1][k - 1] == next;
  }

  /** The rotation from the current half-edge never stops. */
  lemma WalkSpins(hes: seq<Halfedge>, flags: seq<bool>, i: nat, walk: seq<int>, current: int, steps: seq<nat>)
    requires LinksWithin(hes, flags, |hes|) && WalkState(hes, flags, i, walk, current, steps)
    requires NeverFree(hes, flags, |hes|, current)
    ensures Stuck(hes, flags, i, walk + [current], steps)
  {
    var p := walk + [current];
    assert p[..|p| - 1] == walk && p[|p| - 1] == current;
    assert p[0] == i;
  }

  /** In a walk without repeats, the j-th half-edge first occurs at j. */
  lemma PositionDistinct(walk: seq<int>, j: nat)
    requires Distinct(walk) && j < |walk|
    ensures Position(walk, walk[j]) == j
  {
  }

  /** The store once the loop is linked, half-edge by half-edge. */
  lemma LinkedAt(hes: seq<Halfedge>, walk: seq<int>, f: int, u: nat)
    requires Below(walk, |hes|) && u < |hes| + |walk|
    ensures u < |hes| && u !in walk ==> Linking(hes, walk, f, |walk|)[u] == hes[u]
    ensures u < |hes| && u in walk ==> Linking(hes, walk, f, |walk|)[u] == hes[u].(twin := |hes| + Position(walk, u))
    ensures |hes| <= u ==> Linking(hes, walk, f, |walk|)[u] == LoopRecord(hes, walk, f, u - |hes|)
  {
  }

  /** The flags once the loop is linked: the boundary half-edges and the half-edges of the walk are flagged. */
  lemma LinkedFlagAt(flags: seq<bool>, walk: seq<int>, u: nat)
    requires u < |flags| + |walk|
    ensures LinkingFlags(flags, walk, |walk|)[u] == (|flags| <= u || flags[u] || u in walk)
  {
    assert walk[..|walk|] == walk;
  }

  /** An unflagged half-edge between holes is a real one without a twin. */
  lemma UnflaggedIsReal(base: seq<Halfedge>, baseFlags: seq<bool>, hes: seq<Halfedge>, flags: seq<bool>, i: nat, u: nat)
    requires Between(base, baseFlags, hes, flags, i) && u < |hes| && !flags[u]
    ensures u < |base| && !baseFlags[u] && hes[u] == base[u].(twin := -1)
  {
    assert u < |base| ==> RealAt(base, baseFlags, hes, flags, i, u);
    assert |base| <= u ==> BoundaryAt(base, baseFlags, hes, flags, u);
  }

  /** Closing a hole keeps what holds of a real half-edge, and the scan moves past i. */
  lemma CloseRealAt(base: seq<Halfedge>, baseFlags: seq<bool>, hes: seq<Halfedge>, flags: seq<bool>, i: nat,
                    walk: seq<int>, f: int, u: nat)
    requires Between(base, baseFlags, hes, flags, i) && i < |base| && HoleWalk(hes, flags, walk, i) && u < |base|
    ensures RealAt(base, baseFlags, Linking(hes, walk, f, |walk|), LinkingFlags(flags, walk, |walk|), i + 1, u)
  {
    var hes', flags' := Linking(hes, walk, f, |walk|), LinkingFlags(flags, walk, |walk|);
    assert RealAt(base, baseFlags, hes, flags, i, u);
    LinkedAt(hes, walk, f, u);
    LinkedFlagAt(flags, walk, u);
    if u in walk {
      var j := Position(walk, u);
      LinkedAt(hes, walk, f, |hes| + j);
      assert hes'[hes'[u].twin].twin == u;
    } else {
      assert u != i;
      if !baseFlags[u] && flags[u] {
        var t := hes[u].twin;
        assert t !in walk by {
          assert BoundaryAt(base, baseFlags, hes, flags, t);
        }
        LinkedAt(hes, walk, f, t);
      }
    }
  }

  /** Closing a hole leaves the boundary half-edges of earlier holes as they were. */
  lemma CloseOldBoundaryAt(base: seq<Halfedge>, baseFlags: seq<bool>, hes: seq<Halfedge>, flags: seq<bool>, i: nat,
                           walk: seq<int>, f: int, u: nat)
    requires Between(base, baseFlags, hes, flags, i) && HoleWalk(hes, flags, walk, i) && |base| <= u < |hes|
    ensures BoundaryAt(base, baseFlags, Linking(hes, walk, f, |walk|), LinkingFlags(flags, walk, |walk|), u)
  {
    var hes', flags' := Linking(hes, walk, f, |walk|), LinkingFlags(flags, walk, |walk|);
    assert BoundaryAt(base, baseFlags, hes, flags, u);
    var t, nx, pv := hes[u].twin, hes[u].next, hes[u].prev;
    assert u !in walk && t !in walk;
    assert nx !in walk by {
      assert BoundaryAt(base, baseFlags, hes, flags, nx);
    }
    assert pv !in walk by {
      assert BoundaryAt(base, baseFlags, hes, flags, pv);
    }
    LinkedAt(hes, walk, f, u);
    LinkedAt(hes, walk, f, t);
    LinkedAt(hes, walk, f, nx);
    LinkedAt(hes, walk, f, pv);
    LinkedFlagAt(flags, walk, u);
    LinkedFlagAt(flags, walk, t);
  }

  /** Boundary half-edge j of the linked loop is its loop record. */
  lemma LinkedLoopAt(hes: seq<Halfedge>, walk: seq<int>, f: int, j: nat)
    requires Below(walk, |hes|) && j < |walk|
    ensures Linking(hes, walk, f, |walk|)[|hes| + j] == LoopRecord(hes, walk, f, j)
  {
  }

  /** The j-th half-edge of a walk without repeats has boundary half-edge j as its twin. */
  lemma LinkedWalkAt(hes: seq<Halfedge>, walk: seq<int>, f: int, j: nat)
    requires Below(walk, |hes|) && Distinct(walk) && j < |walk|
    ensures Linking(hes, walk, f, |walk|)[walk[j]] == hes[walk[j]].(twin := |hes| + j)
  {
    PositionDistinct(walk, j);
  }

  /**
   * In the linked loop, the next and prev of boundary half-edge j lead back
   * to it.
   */
  lemma LoopLinks(hes: seq<Halfedge>, walk: seq<int>, f: int, j: nat)
    requires Below(walk, |hes|) && j < |walk|
    ensures Linking(hes, walk, f, |walk|)[|hes| + Pred(j, |walk|)].prev == |hes| + j
    ensures Linking(hes, walk, f, |walk|)[|hes| + Succ(j, |walk|)].next == |hes| + j
  {
    var m := |walk|;
    LinkedLoopAt(hes, walk, f, Pred(j, m));
    LinkedLoopAt(hes, walk, f, Succ(j, m));
    SuccPred(j, m);
  }

  /** The j-th boundary half-edge of the new loop is the mutual twin of the j-th half-edge of the walk. */
  lemma CloseNewBoundaryAt(base: seq<Halfedge>, baseFlags: seq<bool>, hes: seq<Halfedge>, flags: seq<bool>, i: nat,
                           walk: seq<int>, f: int, j: nat)
    requires Between(base, baseFlags, hes, flags, i) && HoleWalk(hes, flags, walk, i) && j < |walk|
    ensures BoundaryAt(base, baseFlags, Linking(hes, walk, f, |walk|), LinkingFlags(flags, walk, |walk|), |hes| + j)
  {
    var t := walk[j];
    UnflaggedIsReal(base, baseFlags, hes, flags, i, t);
    LinkedLoopAt(hes, walk, f, j);
    LinkedLoopAt(hes, walk, f, Pred(j, |walk|));
    LinkedWalkAt(hes, walk, f, j);
    LoopLinks(hes, walk, f, j);
    LinkedFlagAt(flags, walk, |hes| + j);
    LinkedFlagAt(flags, walk, t);
  }

  /** Closing the hole at i: every half-edge keeps or gains what holds between holes, and the scan moves past i. */
  lemma CloseHole(base: seq<Halfedge>, baseFlags: seq<bool>, hes: seq<Halfedge>, flags: seq<bool>, i: nat,
                  walk: seq<int>, f: int)
    requires Between(base, baseFlags, hes, flags, i) && i < |base| && HoleWalk(hes, flags, walk, i)
    ensures Between(base, baseFlags, Linking(hes, walk, f, |walk|), LinkingFlags(flags, walk, |walk|), i + 1)
  {
    var hes', flags', i' := Linking(hes, walk, f, |walk|), LinkingFlags(flags, walk, |walk|), i + 1;
    forall u | 0 <= u < |base|
      ensures RealAt(base, baseFlags, hes', flags', i', u)
    {
      CloseRealAt(base, baseFlags, hes, flags, i, walk, f, u);
    }
    forall u | |base| <= u < |hes'|
      ensures BoundaryAt(base, baseFlags, hes', flags', u)
    {
      if u < |hes| {
        CloseOldBoundaryAt(base, baseFlags, hes, flags, i, walk, f, u);
      } else {
        CloseNewBoundaryAt(base, baseFlags, hes, flags, i, walk, f, u - |hes|);
      }
    }
  }

  /** A half-edge already flagged is passed over. */
  lemma SkipHalfedge(base: seq<Halfedge>, baseFlags: seq<bool>, hes: seq<Halfedge>, flags: seq<bool>, i: nat)
    requires Between(base, baseFlags, hes, flags, i) && i < |base| && flags[i]
    ensures Between(base, baseFlags, hes, flags, i + 1)
  {
    var i' := i + 1;
    forall u | 0 <= u < |base|
      ensures RealAt(base, baseFlags, hes, flags, i', u)
    {
      assert RealAt(base, baseFlags, hes, flags, i, u);
    }
  }

  /** Before the first hole the scan has changed nothing. */
  lemma BetweenStart(base: seq<Halfedge>, baseFlags: seq<bool>)
    requires Ready(base, baseFlags)
    ensures Between(base, baseFlags, base, baseFlags, 0)
  {
    var hes, flags := base, baseFlags;
    forall u | 0 <= u < |base|
      ensures RealAt(base, baseFlags, hes, flags, 0, u)
    {
      assert ReadyAt(base, baseFlags, u);
    }
  }

  /** Between holes, links and the twins of flagged half-edges stay in the store, so the rotation is defined. */
  lemma BetweenLinks(base: seq<Halfedge>, baseFlags: seq<bool>, hes: seq<Halfedge>, flags: seq<bool>, i: nat)
    requires Ready(base, baseFlags) && Between(base, baseFlags, hes, flags, i)
    ensures LinksWithin(hes, flags, |hes|)
  {
    forall u | 0 <= u < |hes|
      ensures 0 <= hes[u].next < |hes| && 0 <= hes[u].prev < |hes| && (flags[u] ==> 0 <= hes[u].twin < |hes|)
    {
      if u < |base| {
        assert RealAt(base, baseFlags, hes, flags, i, u) && ReadyAt(base, baseFlags, u);
      } else {
        assert BoundaryAt(base, baseFlags, hes, flags, u);
      }
    }
  }

  /** Before the first hole there are no loops. */
  lemma LoopsStart(base: seq<Halfedge>, fs0: seq<Face>)
    ensures Loops(base, fs0, fs0, [|base|], |base|)
  {
  }

  /**
   * Closing a hole of real half-edges adds one loop: its boundary half-edges
   * follow the earlier ones, on a new virtual face that points at the last
   * of them.
   */
  lemma LoopsStep(hes: seq<Halfedge>, fs0: seq<Face>, fs: seq<Face>, starts: seq<nat>, lo: nat, walk: seq<int>)
    requires Loops(hes, fs0, fs, starts, lo) && lo <= |hes| && 1 <= |walk| && Below(walk, lo)
    ensures Loops(Linking(hes, walk, |fs|, |walk|), fs0, fs + [OpenFace(hes, walk)], starts + [|hes| + |walk|], lo)
  {
    var m, f := |walk|, |fs|;
    var hes', fs', starts' := Linking(hes, walk, f, m), fs + [Face(|hes| + m - 1, -1, false)], starts + [|hes| + m];
    var nf := |fs0|;
    assert fs'[..nf] == fs[..nf];
    forall q | 0 <= q < |starts'| - 1
      ensures LoopAt(hes', fs', nf, starts', q)
    {
      if q < |starts| - 1 {
        assert LoopAt(hes, fs, nf, starts, q);
        forall u | starts[q] <= u < starts[q + 1]
          ensures hes'[u] == hes[u]
        {
          assert u !in walk;
          LinkedAt(hes, walk, f, u);
        }
      } else {
        forall u | |hes| <= u < |hes| + m
          ensures hes'[u].face == f && |hes| <= hes'[u].next < |hes| + m && |hes| <= hes'[u].prev < |hes| + m
        {
          LinkedLoopAt(hes, walk, f, u - |hes|);
        }
      }
    }
  }

  /** The entry a closed hole adds to `boundaries`. */
  lemma EntriesSnoc(variant: Variant, starts: seq<nat>, nf: nat, x: nat)
    requires |starts| >= 1
    ensures variant == Torantie ==> BoundaryEntries(variant, starts + [x], nf) == []
    ensures variant != Torantie ==>
      BoundaryEntries(variant, starts + [x], nf) ==
      BoundaryEntries(variant, starts, nf) + [Entry(variant, starts[|starts| - 1], x, nf + |starts| - 1)]
  {
    assert (starts + [x])[..|starts|] == starts;
  }


  /** `boundaries` after a loop of half-edges lo .. hi-1 on virtual face f is listed (torantie keeps no list). */
  function Pushed(variant: Variant, bs: seq<Boundary>, lo: nat, hi: nat, f: int): (r: seq<Boundary>)
    ensures variant == Torantie ==> r == bs
    ensures variant != Torantie ==> |r| == |bs| + 1 && r[..|bs|] == bs && r[|bs|] == Entry(variant, lo, hi, f)
  {
    if variant == Torantie then bs else bs + [Entry(variant, lo, hi, f)]
  }

  /** Listing the loop that ends the list of starts at hi is listing one more start. */
  lemma PushedEntries(variant: Variant, bs: seq<Boundary>, starts: seq<nat>, nf: nat, lo: nat, hi: nat, f: int)
    requires |starts| >= 1 && bs == BoundaryEntries(variant, starts, nf)
    requires lo == starts[|starts| - 1] && f == nf + |starts| - 1
    ensures Pushed(variant, bs, lo, hi, f) == BoundaryEntries(variant, starts + [hi], nf)
  {
    EntriesSnoc(variant, starts, nf, hi);
  }

  /**
   * The boundary pass before real half-edge i, on explicit stores: the
   * face pass left `base` ready, the holes before i are closed, their
   * loops sit after `base` on virtual faces appended after fs0, and bs
   * lists them as the variant does.
   */
  ghost predicate HolesState(variant: Variant, base: seq<Halfedge>, baseFlags: seq<bool>, fs0: seq<Face>,
                             hes: seq<Halfedge>, fs: seq<Face>, bs: seq<Boundary>, flags: seq<bool>, i: nat, starts: seq<nat>)
  {
    Ready(base, baseFlags) && Between(base, baseFlags, hes, flags, i) &&
    Loops(hes, fs0, fs, starts, |base|) && bs == BoundaryEntries(variant, starts, |fs0|)
  }

  /** Before the first half-edge nothing is closed and nothing is listed. */
  lemma HolesStart(variant: Variant, base: seq<Halfedge>, baseFlags: seq<bool>, fs0: seq<Face>)
    requires Ready(base, baseFlags)
    ensures HolesState(variant, base, baseFlags, fs0, base, fs0, [], baseFlags, 0, [|base|])
  {
    BetweenStart(base, baseFlags);
    LoopsStart(base, fs0);
  }

  /** A half-edge that already has a twin is passed over. */
  lemma HolesSkip(variant: Variant, base: seq<Halfedge>, baseFlags: seq<bool>, fs0: seq<Face>,
                  hes: seq<Halfedge>, fs: seq<Face>, bs: seq<Boundary>, flags: seq<bool>, i: nat, starts: seq<nat>)
    requires HolesState(variant, base, baseFlags, fs0, hes, fs, bs, flags, i, starts) && i < |base| && flags[i]
    ensures HolesState(variant, base, baseFlags, fs0, hes, fs, bs, flags, i + 1, starts)
  {
    SkipHalfedge(base, baseFlags, hes, flags, i);
  }

  /** Closing the hole at i with a walk adds one loop, one virtual face and, except for torantie, one entry. */
  lemma HoleStep(variant: Variant, base: seq<Halfedge>, baseFlags: seq<bool>, fs0: seq<Face>,
                 hes: seq<Halfedge>, fs: seq<Face>, bs: seq<Boundary>, flags: seq<bool>, i: nat, starts: seq<nat>, walk: seq<int>)
    requires HolesState(variant, base, baseFlags, fs0, hes, fs, bs, flags, i, starts) && i < |base| && HoleWalk(hes, flags, walk, i)
    ensures Below(walk, |hes|)
    ensures HolesState(variant, base, baseFlags, fs0, Linking(hes, walk, |fs|, |walk|), fs + [OpenFace(hes, walk)],
                       Pushed(variant, bs, |hes|, |hes| + |walk|, |fs|), LinkingFlags(flags, walk, |walk|), i + 1, starts + [|hes| + |walk|])
  {
    WalkIsReal(base, baseFlags, hes, flags, i, walk);
    CloseHole(base, baseFlags, hes, flags, i, walk, |fs|);
    LoopsStep(hes, fs0, fs, starts, |base|, walk);
    assert starts[|starts| - 1] == |hes| && |fs| == |fs0| + |starts| - 1;
    PushedEntries(variant, bs, starts, |fs0|, |hes|, |hes| + |walk|, |fs|);
  }

  // ---------------------------------------------------------------------
  // Every hole closed

  /**
   * Half-edge u once every hole is closed: it is flagged and has a twin
   * other than itself on its own edge, next and prev are inverse and keep
   * to one face, it is on the boundary exactly when the boundary pass
   * created it, and its twin points back at it unless the face pass had
   * already left that twin pointing elsewhere; a half-edge of the face pass
   * keeps everything but its twin.
   */
  ghost predicate ClosedAt(base: seq<Halfedge>, hes: seq<Halfedge>, flags: seq<bool>, u: nat)
    requires |base| <= |hes| == |flags| && u < |hes|
  {
    flags[u] && 0 <= hes[u].twin < |hes| && hes[u].twin != u && hes[hes[u].twin].edge == hes[u].edge &&
    0 <= hes[u].next < |hes| && 0 <= hes[u].prev < |hes| &&
    hes[hes[u].next].prev == u && hes[hes[u].prev].next == u && hes[hes[u].next].face == hes[u].face &&
    (hes[u].onBoundary <==> |base| <= u) && (u < |base| ==> hes[u] == base[u].(twin := hes[u].twin)) &&
    (hes[hes[u].twin].twin == u <==>
       (u < |base| && base[u].twin != -1 ==> 0 <= base[u].twin < |base| && base[base[u].twin].twin == u))
  }

  lemma ClosedRealAt(base: seq<Halfedge>, baseFlags: seq<bool>, hes: seq<Halfedge>, flags: seq<bool>, u: nat)
    requires Ready(base, baseFlags) && Between(base, baseFlags, hes, flags, |base|) && u < |base|
    ensures ClosedAt(base, hes, flags, u)
  {
    assert ReadyAt(base, baseFlags, u) && RealAt(base, baseFlags, hes, flags, |base|, u);
    var nx, pv := base[u].next, base[u].prev;
    assert RealAt(base, baseFlags, hes, flags, |base|, nx) && RealAt(base, baseFlags, hes, flags, |base|, pv);
    var t := hes[u].twin;
    if baseFlags[u] {
      assert RealAt(base, baseFlags, hes, flags, |base|, t);
    } else {
      assert BoundaryAt(base, baseFlags, hes, flags, t);
    }
  }

  lemma ClosedBoundaryAt(base: seq<Halfedge>, baseFlags: seq<bool>, hes: seq<Halfedge>, flags: seq<bool>, u: nat)
    requires Between(base, baseFlags, hes, flags, |base|) && |base| <= u < |hes|
    ensures ClosedAt(base, hes, flags, u)
  {
    assert BoundaryAt(base, baseFlags, hes, flags, u);
    var t := hes[u].twin;
    assert RealAt(base, baseFlags, hes, flags, |base|, t);
  }

  /** Once the scan has passed every real half-edge, every half-edge is closed. */
  lemma Closed(base: seq<Halfedge>, baseFlags: seq<bool>, hes: seq<Halfedge>, flags: seq<bool>)
    requires Ready(base, baseFlags) && Between(base, baseFlags, hes, flags, |base|)
    ensures forall u :: 0 <= u < |hes| ==> ClosedAt(base, hes, flags, u)
  {
    forall u | 0 <= u < |hes|
      ensures ClosedAt(base, hes, flags, u)
    {
      if u < |base| {
        ClosedRealAt(base, baseFlags, hes, flags, u);
      } else {
        ClosedBoundaryAt(base, baseFlags, hes, flags, u);
      }
    }
  }

  // ---------------------------------------------------------------------
  // The store the face pass leaves

  /** Within its face, half-edge u of the finished pass is linked both ways and not on a boundary. */
  lemma PassedCycleAt(indices: seq<int>, n: nat, u: nat)
    requires Strided(indices, n) && u < RealHalfedgeCount(indices, n)
    ensures
      var hs := Passed(indices, n);
      0 <= hs[u].next < |hs| && 0 <= hs[u].prev < |hs| && !hs[u].onBoundary &&
      hs[hs[u].next].prev == u && hs[hs[u].prev].next == u && hs[hs[u].next].face == hs[u].face
  {
    var kj := SlotOwner(indices, n, u);
    var k, j := kj.0, kj.1;
    PassedLinks(indices, n, k, j);
    PassedNextBack(indices, n, k, j);
    PassedPrevBack(indices, n, k, j);
    var a := Arity(indices, n, k);
    CycleAt(Passed(indices, n), u, Base(indices, n, k) + NextCorner(j, a), Base(indices, n, k) + PrevCorner(j, a), k);
  }

  /** Half-edge u whose next and prev point back at it within its face. */
  lemma CycleAt(hs: seq<Halfedge>, u: nat, nx: nat, pv: nat, k: int)
    requires u < |hs| && nx < |hs| && pv < |hs|
    requires hs[u].next == nx && hs[u].prev == pv && hs[u].face == k && !hs[u].onBoundary
    requires hs[nx].prev == u && hs[nx].face == k && hs[pv].next == u
    ensures
      0 <= hs[u].next < |hs| && 0 <= hs[u].prev < |hs| && !hs[u].onBoundary &&
      hs[hs[u].next].prev == u && hs[hs[u].prev].next == u && hs[hs[u].next].face == hs[u].face
  {
  }

  /** A store paired by a fold over its keys flags exactly the half-edges with a twin, and their twins too. */
  lemma PairedFlagsAt(hs0: seq<Halfedge>, keys: seq<Key>, s: nat)
    requires |hs0| == |keys| && s < |keys|
    ensures
      var hs, flags := Paired(hs0, Pairs(keys)), Flags(Pairs(keys), |keys|);
      (flags[s] <==> hs[s].twin != -1) &&
      (hs[s].twin != -1 ==> 0 <= hs[s].twin < |hs| && hs[s].twin != s && flags[hs[s].twin] && hs[hs[s].twin].edge == hs[s].edge)
  {
    var p := Pairs(keys);
    PairedTwinAt(hs0, keys, s);
    PairsTwins(keys);
    var hs := Paired(hs0, p);
    assert hs[s].twin == p.twin[s];
    if p.twin[s] != -1 {
      var t := p.twin[s];
      assert keys[t] == keys[s];
    }
  }

  /** Half-edge u of the finished face pass is ready for the boundary pass. */
  lemma PassedReadyAt(indices: seq<int>, n: nat, u: nat)
    requires Strided(indices, n) && u < RealHalfedgeCount(indices, n)
    ensures ReadyAt(Passed(indices, n), Flags(Pairs(AllKeys(indices, n, FaceCount(indices, n))), RealHalfedgeCount(indices, n)), u)
  {
    var F := FaceCount(indices, n);
    PassedCycleAt(indices, n, u);
    PairedFlagsAt(LinksUpTo(indices, n, F), AllKeys(indices, n, F), u);
  }

  /** The store and flags the face pass leaves are ready for the boundary pass. */
  lemma PassedReady(indices: seq<int>, n: nat)
    requires Strided(indices, n)
    ensures Ready(Passed(indices, n), Flags(Pairs(AllKeys(indices, n, FaceCount(indices, n))), RealHalfedgeCount(indices, n)))
  {
    forall u | 0 <= u < RealHalfedgeCount(indices, n)
      ensures ReadyAt(Passed(indices, n), Flags(Pairs(AllKeys(indices, n, FaceCount(indices, n))), RealHalfedgeCount(indices, n)), u)
    {
      PassedReadyAt(indices, n, u);
    }
  }
}
