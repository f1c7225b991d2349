/**
 * Twin and edge pairing of the face pass, as a fold over the sorted vertex
 * pairs ("keys") of the face sides in the order the pass meets them.
 *
 * The pass keeps a map from each key to the first half-edge with it, a
 * map from each key to the number of half-edges with it, and a flag per
 * half-edge telling whether its twin was constructed. A key met for the
 * first time creates an edge; a key met again makes the new half-edge and
 * the key's first half-edge twins of each other and shares the edge.
 */
module Pairing {

  type Key = (int, int)

  /**
   * The bookkeeping after the first |twin| half-edges: each half-edge's twin
   * (-1 for none) and edge, its flag, each edge's half-edge, and the two maps.
   */
  datatype PairState = PairState(twin: seq<int>, edge: seq<int>, hasTwin: seq<bool>, edgeHalfedge: seq<int>,
                                 existed: map<Key, int>, count: map<Key, int>)

  /** The state before the first face. */
  const Empty := PairState([], [], [], [], map[], map[])

  /** Both maps know the same keys, each naming a half-edge already paired. */
  ghost predicate Shaped(p: PairState)
  {
    |p.twin| == |p.edge| == |p.hasTwin| &&
    (forall key :: key in p.existed <==> key in p.count) &&
    (forall key :: key in p.existed ==> 0 <= p.existed[key] < |p.twin|)
  }

  /** Pair the next half-edge, whose side has the given key. */
  function Step(p: PairState, key: Key): (r: PairState)
    requires |p.twin| == |p.edge| == |p.hasTwin|
    requires key in p.existed ==> 0 <= p.existed[key] < |p.twin| && key in p.count
    ensures |r.twin| == |r.edge| == |r.hasTwin| == |p.twin| + 1
    ensures key in r.existed && key in r.count
    ensures key in p.existed ==> r.count[key] == p.count[key] + 1 && r.edgeHalfedge == p.edgeHalfedge
    ensures key !in p.existed ==> r.count[key] == 1 && |r.edgeHalfedge| == |p.edgeHalfedge| + 1
    ensures Shaped(p) ==> Shaped(r)
  {
    var t := |p.twin|;
    if key in p.existed then
      var t0 := p.existed[key];
      p.(twin := p.twin[t0 := t] + [t0], edge := p.edge + [p.edge[t0]], hasTwin := p.hasTwin[t0 := true] + [true],
         count := p.count[key := p.count[key] + 1])
    else
      p.(twin := p.twin + [-1], edge := p.edge + [|p.edgeHalfedge|], hasTwin := p.hasTwin + [false],
         edgeHalfedge := p.edgeHalfedge + [t], existed := p.existed[key := t], count := p.count[key := 1])
  }

  /** The bookkeeping after pairing the half-edges with the given keys, in order. */
  ghost function Pairs(keys: seq<Key>): (p: PairState)
    ensures Shaped(p) && |p.twin| == |keys|
    decreases |keys|
  {
    if keys == [] then Empty else Step(Pairs(keys[..|keys| - 1]), keys[|keys| - 1])
  }

  lemma PairsSnoc(keys: seq<Key>, key: Key)
    ensures Pairs(keys + [key]) == Step(Pairs(keys), key)
  {
    assert (keys + [key])[..|keys|] == keys;
  }

  /** How many of the keys equal the given one. */
  function Occurrences(keys: seq<Key>, key: Key): (c: nat)
    ensures c <= |keys|
    decreases |keys|
  {
    if keys == [] then 0
    else Occurrences(keys[..|keys| - 1], key) + (if keys[|keys| - 1] == key then 1 else 0)
  }

  lemma OccurrencesSnoc(keys: seq<Key>, last: Key, key: Key)
    ensures Occurrences(keys + [last], key) == Occurrences(keys, key) + (if last == key then 1 else 0)
  {
    assert (keys + [last])[..|keys|] == keys;
  }

  /** A key at some position occurs at least once. */
  lemma {:induction false} OccurrencesPositive(keys: seq<Key>, s: nat)
    requires s < |keys|
    ensures Occurrences(keys, keys[s]) >= 1
    decreases |keys|
  {
    if s < |keys| - 1 {
      OccurrencesPositive(keys[..|keys| - 1], s);
    }
  }

  /** A key at no position does not occur. */
  lemma {:induction false} OccurrencesAbsent(keys: seq<Key>, key: Key)
    requires forall s :: 0 <= s < |keys| ==> keys[s] != key
    ensures Occurrences(keys, key) == 0
    decreases |keys|
  {
    if keys != [] {
      OccurrencesAbsent(keys[..|keys| - 1], key);
    }
  }

  /** The count is the key's multiplicity in the multiset of keys. */
  lemma {:induction false} OccurrencesAreMultiplicity(keys: seq<Key>, key: Key)
    ensures Occurrences(keys, key) == multiset(keys)[key]
    decreases |keys|
  {
    if keys != [] {
      var init := keys[..|keys| - 1];
      OccurrencesAreMultiplicity(init, key);
      assert keys == init + [keys[|keys| - 1]];
      assert multiset(keys) == multiset(init) + multiset{keys[|keys| - 1]};
    }
  }

  // ---------------------------------------------------------------------
  // The invariant of the fold

  /** `existed` names each key's first half-edge and `count` counts its half-edges. */
  ghost predicate KeysRecorded(p: PairState, keys: seq<Key>)
  {
    (forall key :: key in p.existed <==> key in p.count) &&
    (forall s :: 0 <= s < |keys| ==> keys[s] in p.existed) &&
    (forall key :: key in p.existed ==> 0 <= p.existed[key] < |keys| && keys[p.existed[key]] == key) &&
    (forall key :: key in p.count ==> p.count[key] == Occurrences(keys, key)) &&
    |p.edgeHalfedge| == |p.existed|
  }

  /**
   * Half-edges with one key share one edge, the edge of a key's first
   * half-edge points back to it, and each edge's half-edge lies on that edge.
   */
  ghost predicate EdgesShared(p: PairState, keys: seq<Key>)
  {
    |keys| == |p.edge| &&
    (forall key :: key in p.existed ==>
       0 <= p.existed[key] < |keys| && 0 <= p.edge[p.existed[key]] < |p.edgeHalfedge| &&
       p.edgeHalfedge[p.edge[p.existed[key]]] == p.existed[key]) &&
    (forall s, u {:trigger keys[s], keys[u]} :: 0 <= s < |keys| && 0 <= u < |keys| && keys[s] == keys[u] ==> p.edge[s] == p.edge[u]) &&
    (forall e :: 0 <= e < |p.edgeHalfedge| ==> 0 <= p.edgeHalfedge[e] < |keys| && p.edge[p.edgeHalfedge[e]] == e)
  }

  /**
   * A half-edge is flagged once its key has been met twice, exactly when it
   * has a twin; a twin is another half-edge with the same key; a key met
   * once belongs to its first half-edge alone, and a key met exactly twice
   * joins two mutual twins.
   */
  ghost predicate TwinsSoFar(p: PairState, keys: seq<Key>)
  {
    |keys| == |p.twin| == |p.hasTwin| &&
    (forall s :: 0 <= s < |keys| ==>
       keys[s] in p.existed && keys[s] in p.count &&
       -1 <= p.twin[s] < |keys| &&
       (p.hasTwin[s] <==> p.count[keys[s]] >= 2) && (p.hasTwin[s] <==> p.twin[s] != -1) &&
       (p.count[keys[s]] == 1 ==> s == p.existed[keys[s]])) &&
    (forall s, u {:trigger keys[s], keys[u]} :: 0 <= s < |keys| && 0 <= u < |keys| && p.twin[s] == u ==>
       u != s && keys[u] == keys[s] && (keys[s] in p.count && p.count[keys[s]] == 2 ==> p.twin[u] == s))
  }

  ghost predicate PairedOn(p: PairState, keys: seq<Key>)
  {
    KeysRecorded(p, keys) && EdgesShared(p, keys) && TwinsSoFar(p, keys)
  }

  /** A new key counts once, every other key keeps its count. */
  lemma CountsNewKey(count: map<Key, int>, count2: map<Key, int>, keys: seq<Key>, key: Key)
    requires count2 == count[key := 1]
    requires forall s :: 0 <= s < |keys| ==> keys[s] != key
    requires forall k :: k in count ==> count[k] == Occurrences(keys, k)
    ensures forall k :: k in count2 ==> count2[k] == Occurrences(keys + [key], k)
  {
    OccurrencesAbsent(keys, key);
    forall k | k in count2
      ensures count2[k] == Occurrences(keys + [key], k)
    {
      OccurrencesSnoc(keys, key, k);
    }
  }

  /** A new key's first half-edge is the one just appended; there is one more key. */
  lemma FirstsNewKey(existed: map<Key, int>, existed2: map<Key, int>, keys: seq<Key>, key: Key)
    requires existed2 == existed[key := |keys|] && key !in existed
    requires forall k :: k in existed ==> 0 <= existed[k] < |keys| && keys[existed[k]] == k
    ensures forall k :: k in existed2 ==> 0 <= existed2[k] < |keys| + 1 && (keys + [key])[existed2[k]] == k
    ensures |existed2| == |existed| + 1
  {
    var keys2 := keys + [key];
    forall k | k in existed2
      ensures 0 <= existed2[k] < |keys| + 1 && keys2[existed2[k]] == k
    {
      if k != key {
        assert keys2[existed[k]] == keys[existed[k]];
      }
    }
    assert existed2.Keys == existed.Keys + {key};
  }

  lemma RecordNewKey(p: PairState, keys: seq<Key>, key: Key)
    requires Shaped(p) && |keys| == |p.twin| && KeysRecorded(p, keys) && key !in p.existed
    ensures KeysRecorded(Step(p, key), keys + [key])
  {
    var t, keys2, r := |keys|, keys + [key], Step(p, key);
    assert r.existed == p.existed[key := t] && r.count == p.count[key := 1] && |r.edgeHalfedge| == |p.edgeHalfedge| + 1;
    CountsNewKey(p.count, r.count, keys, key);
    FirstsNewKey(p.existed, r.existed, keys, key);
    assert forall s :: 0 <= s < t ==> keys2[s] == keys[s];
  }

  lemma RecordExistingKey(p: PairState, keys: seq<Key>, key: Key)
    requires Shaped(p) && |keys| == |p.twin| && KeysRecorded(p, keys) && key in p.existed
    ensures KeysRecorded(Step(p, key), keys + [key])
    ensures p.count[key] >= 1
  {
    var keys2, r := keys + [key], Step(p, key);
    OccurrencesPositive(keys, p.existed[key]);
    forall k2 | k2 in r.count
      ensures r.count[k2] == Occurrences(keys2, k2)
    {
      OccurrencesSnoc(keys, key, k2);
    }
    assert forall s :: 0 <= s < |keys| ==> keys2[s] == keys[s];
  }

  lemma ShareNewKey(p: PairState, keys: seq<Key>, key: Key)
    requires Shaped(p) && |keys| == |p.twin| && EdgesShared(p, keys)
    requires key !in p.existed && forall s :: 0 <= s < |keys| ==> keys[s] in p.existed
    ensures EdgesShared(Step(p, key), keys + [key])
  {
    var t, e, keys2, r := |keys|, |p.edgeHalfedge|, keys + [key], Step(p, key);
    assert r.edge == p.edge + [e] && r.edgeHalfedge == p.edgeHalfedge + [t] && r.existed == p.existed[key := t];
    assert forall s :: 0 <= s < t ==> keys2[s] == keys[s] && keys[s] != key;
    forall k2 | k2 in r.existed
      ensures 0 <= r.existed[k2] < |keys2| && 0 <= r.edge[r.existed[k2]] < |r.edgeHalfedge|
      ensures r.edgeHalfedge[r.edge[r.existed[k2]]] == r.existed[k2]
    {
      if k2 != key {
        var s0 := p.existed[k2];
        assert r.existed[k2] == s0 && r.edge[s0] == p.edge[s0];
        assert r.edgeHalfedge[p.edge[s0]] == p.edgeHalfedge[p.edge[s0]];
      }
    }
    forall s, u | 0 <= s < t + 1 && 0 <= u < t + 1 && keys2[s] == keys2[u]
      ensures r.edge[s] == r.edge[u]
    {
      if s < t && u < t {
        assert keys[s] == keys[u] && r.edge[s] == p.edge[s] && r.edge[u] == p.edge[u];
      }
    }
    forall e2 | 0 <= e2 < |r.edgeHalfedge|
      ensures 0 <= r.edgeHalfedge[e2] < |keys2| && r.edge[r.edgeHalfedge[e2]] == e2
    {
      if e2 < e {
        var s0 := p.edgeHalfedge[e2];
        assert r.edgeHalfedge[e2] == s0 && r.edge[s0] == p.edge[s0];
      }
    }
  }

  lemma ShareExistingKey(p: PairState, keys: seq<Key>, key: Key)
    requires Shaped(p) && |keys| == |p.twin| && EdgesShared(p, keys)
    requires key in p.existed && key in p.count && keys[p.existed[key]] == key
    ensures EdgesShared(Step(p, key), keys + [key])
  {
    var t, t0, keys2, r := |keys|, p.existed[key], keys + [key], Step(p, key);
    assert forall s :: 0 <= s < t ==> keys2[s] == keys[s] && r.edge[s] == p.edge[s];
    forall s, u | 0 <= s < t + 1 && 0 <= u < t + 1 && keys2[s] == keys2[u]
      ensures r.edge[s] == r.edge[u]
    {
      if s < t && u == t {
        assert p.edge[s] == p.edge[t0];
      } else if s == t && u < t {
        assert p.edge[u] == p.edge[t0];
      }
    }
  }

  lemma TwinNewKey(p: PairState, keys: seq<Key>, key: Key)
    requires Shaped(p) && |keys| == |p.twin| && TwinsSoFar(p, keys)
    requires key !in p.existed && key !in p.count
    ensures TwinsSoFar(Step(p, key), keys + [key])
  {
    var t, keys2, r := |keys|, keys + [key], Step(p, key);
    assert forall s :: 0 <= s < t ==> keys2[s] == keys[s] && keys[s] != key && r.twin[s] == p.twin[s] && r.hasTwin[s] == p.hasTwin[s];
    forall s, u | 0 <= s < t + 1 && 0 <= u < t + 1 && r.twin[s] == u
      ensures u != s && keys2[u] == keys2[s] && (keys2[s] in r.count && r.count[keys2[s]] == 2 ==> r.twin[u] == s)
    {
      assert s < t && p.twin[s] == u;
    }
  }

  lemma TwinExistingKey(p: PairState, keys: seq<Key>, key: Key)
    requires Shaped(p) && |keys| == |p.twin| && TwinsSoFar(p, keys)
    requires key in p.existed && key in p.count && p.count[key] >= 1 && keys[p.existed[key]] == key
    ensures TwinsSoFar(Step(p, key), keys + [key])
  {
    var t, t0, c, keys2, r := |keys|, p.existed[key], p.count[key], keys + [key], Step(p, key);
    assert r.twin == p.twin[t0 := t] + [t0] && r.hasTwin == p.hasTwin[t0 := true] + [true];
    assert r.count == p.count[key := c + 1] && r.existed == p.existed;
    assert forall s :: 0 <= s < t ==> keys2[s] == keys[s];
    forall s | 0 <= s < t + 1
      ensures keys2[s] in r.existed && keys2[s] in r.count && -1 <= r.twin[s] < t + 1
      ensures (r.hasTwin[s] <==> r.count[keys2[s]] >= 2) && (r.hasTwin[s] <==> r.twin[s] != -1)
      ensures r.count[keys2[s]] == 1 ==> s == r.existed[keys2[s]]
    {
      if s < t && s != t0 {
        assert r.twin[s] == p.twin[s] && r.hasTwin[s] == p.hasTwin[s];
        if keys[s] == key {
          assert p.count[key] >= 2;
        }
      }
    }
    forall s, u | 0 <= s < t + 1 && 0 <= u < t + 1 && r.twin[s] == u
      ensures u != s && keys2[u] == keys2[s] && (keys2[s] in r.count && r.count[keys2[s]] == 2 ==> r.twin[u] == s)
    {
      if s < t && s != t0 {
        assert p.twin[s] == u && u < t && keys[u] == keys[s];
        if keys[s] != key {
          assert u != t0 && r.twin[u] == p.twin[u];
        }
      }
    }
  }

  /** One step of the fold keeps its invariant. */
  lemma StepKeeps(p: PairState, keys: seq<Key>, key: Key)
    requires Shaped(p) && |keys| == |p.twin| && PairedOn(p, keys)
    ensures PairedOn(Step(p, key), keys + [key])
  {
    if key in p.existed {
      RecordExistingKey(p, keys, key);
      ShareExistingKey(p, keys, key);
      TwinExistingKey(p, keys, key);
    } else {
      RecordNewKey(p, keys, key);
      ShareNewKey(p, keys, key);
      TwinNewKey(p, keys, key);
    }
  }

  lemma PairsInvariantSnoc(init: seq<Key>, last: Key)
    requires PairedOn(Pairs(init), init)
    ensures PairedOn(Pairs(init + [last]), init + [last])
  {
    PairsSnoc(init, last);
    StepKeeps(Pairs(init), init, last);
  }

  lemma {:induction false} PairsInvariant(keys: seq<Key>)
    ensures PairedOn(Pairs(keys), keys)
    decreases |keys|
  {
    if keys != [] {
      var init, last := keys[..|keys| - 1], keys[|keys| - 1];
      assert keys == init + [last];
      PairsInvariant(init);
      PairsInvariantSnoc(init, last);
    }
  }

  /** The per-key counter the manifold check reads is the number of sides with that key. */
  lemma PairsCount(keys: seq<Key>, key: Key)
    ensures key in Pairs(keys + [key]).count
    ensures Pairs(keys + [key]).count[key] == multiset(keys + [key])[key]
  {
    PairsInvariant(keys + [key]);
    assert (keys + [key])[|keys|] == key;
    OccurrencesAreMultiplicity(keys + [key], key);
  }

  // ---------------------------------------------------------------------
  // What the pass leaves behind

  /**
   * Two half-edges share an edge exactly when their sides join the same
   * pair of vertices, and every edge's half-edge lies on it.
   */
  ghost predicate EdgesMatchKeys(p: PairState, keys: seq<Key>)
    requires |p.edge| == |keys|
  {
    (forall s :: 0 <= s < |keys| ==> 0 <= p.edge[s] < |p.edgeHalfedge|) &&
    (forall s, u {:trigger keys[s], keys[u]} :: 0 <= s < |keys| && 0 <= u < |keys| ==> (p.edge[s] == p.edge[u] <==> keys[s] == keys[u])) &&
    (forall e :: 0 <= e < |p.edgeHalfedge| ==> 0 <= p.edgeHalfedge[e] < |keys| && p.edge[p.edgeHalfedge[e]] == e)
  }

  /**
   * A half-edge has a twin exactly when another side has its key, and the
   * flag records it; the twin is another half-edge with the same key; when
   * exactly two sides have a key they are each other's twins.
   */
  ghost predicate TwinsMatchKeys(p: PairState, keys: seq<Key>)
    requires |p.twin| == |p.hasTwin| == |keys|
  {
    (forall s :: 0 <= s < |keys| ==> -1 <= p.twin[s] < |keys|) &&
    (forall s :: 0 <= s < |keys| ==> (p.hasTwin[s] <==> multiset(keys)[keys[s]] >= 2) && (p.hasTwin[s] <==> p.twin[s] != -1)) &&
    (forall s, u {:trigger keys[s], keys[u]} :: 0 <= s < |keys| && 0 <= u < |keys| && p.twin[s] == u ==>
       u != s && keys[u] == keys[s] && (multiset(keys)[keys[s]] == 2 ==> p.twin[u] == s))
  }

  lemma EdgesFromInvariant(p: PairState, keys: seq<Key>)
    requires PairedOn(p, keys)
    ensures EdgesMatchKeys(p, keys)
  {
    forall s | 0 <= s < |keys|
      ensures 0 <= p.edge[s] < |p.edgeHalfedge|
    {
      var s0 := p.existed[keys[s]];
      assert keys[s0] == keys[s] && p.edge[s] == p.edge[s0];
    }
    forall s, u | 0 <= s < |keys| && 0 <= u < |keys|
      ensures p.edge[s] == p.edge[u] <==> keys[s] == keys[u]
    {
      var s0, u0 := p.existed[keys[s]], p.existed[keys[u]];
      assert keys[s0] == keys[s] && keys[u0] == keys[u];
      assert p.edge[s] == p.edge[s0] && p.edge[u] == p.edge[u0];
      if p.edge[s] == p.edge[u] {
        assert p.edgeHalfedge[p.edge[s0]] == s0 && p.edgeHalfedge[p.edge[u0]] == u0;
      }
    }
  }

  lemma EdgeCountFromInvariant(p: PairState, keys: seq<Key>)
    requires PairedOn(p, keys)
    ensures |p.edgeHalfedge| == |set s | 0 <= s < |keys| :: keys[s]|
  {
    var seen := set s | 0 <= s < |keys| :: keys[s];
    forall key | key in p.existed
      ensures key in seen
    {
      assert keys[p.existed[key]] == key;
    }
    assert p.existed.Keys == seen;
  }

  lemma TwinsFromInvariant(p: PairState, keys: seq<Key>)
    requires PairedOn(p, keys)
    ensures TwinsMatchKeys(p, keys)
  {
    forall s | 0 <= s < |keys|
      ensures p.count[keys[s]] == multiset(keys)[keys[s]]
    {
      OccurrencesAreMultiplicity(keys, keys[s]);
    }
  }

  /** The twin of one half-edge after the fold, and the edge it shares with it. */
  lemma PairsTwinAt(keys: seq<Key>, s: nat)
    requires s < |keys|
    ensures
      var p := Pairs(keys);
      (p.twin[s] != -1 <==> multiset(keys)[keys[s]] >= 2) &&
      (p.twin[s] != -1 ==> 0 <= p.twin[s] < |keys| && p.twin[s] != s && keys[p.twin[s]] == keys[s] &&
                           p.edge[p.twin[s]] == p.edge[s] && (multiset(keys)[keys[s]] == 2 ==> p.twin[p.twin[s]] == s))
  {
    var p := Pairs(keys);
    PairsTwins(keys);
    PairsEdges(keys);
    if p.twin[s] != -1 {
      var t := p.twin[s];
      assert 0 <= t < |keys| && keys[t] == keys[s];
    }
  }

  /** Every half-edge lies on an edge, shared by exactly the half-edges with its key. */
  lemma PairsEdges(keys: seq<Key>)
    ensures EdgesMatchKeys(Pairs(keys), keys)
  {
    PairsInvariant(keys);
    EdgesFromInvariant(Pairs(keys), keys);
  }

  /** There is one edge per distinct key. */
  lemma PairsEdgeCount(keys: seq<Key>)
    ensures |Pairs(keys).edgeHalfedge| == |set s | 0 <= s < |keys| :: keys[s]|
  {
    PairsInvariant(keys);
    EdgeCountFromInvariant(Pairs(keys), keys);
  }

  /** The twins: set exactly for keys met twice or more, mutual for keys met exactly twice. */
  lemma PairsTwins(keys: seq<Key>)
    ensures TwinsMatchKeys(Pairs(keys), keys)
  {
    PairsInvariant(keys);
    TwinsFromInvariant(Pairs(keys), keys);
  }
}
