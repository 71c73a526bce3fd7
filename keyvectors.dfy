/**
 * The key-vector helpers of the mesh interface: union, symmetric difference
 * and intersection of two key vectors, and the two adjacency tests that compare
 * boundary vectors. Each helper is a loop over plain vectors with a linear
 * membership search; here each is a method proved against a recursive
 * specification function, and the lemmas say what those functions contain.
 */
module KeyVectors {

  predicate NoDuplicates<K(==)>(s: seq<K>)
  {
    forall i, j :: 0 <= i < j < |s| ==> s[i] != s[j]
  }

  // ---------------------------------------------------------------------------
  // specification functions (each one is the loop's result, built from the end)
  // ---------------------------------------------------------------------------

  /** `acc` followed by each element of `s` that is not already there, in order. */
  function AppendNew<K(==)>(acc: seq<K>, s: seq<K>): seq<K>
    decreases |s|
  {
    if s == [] then acc
    else
      var r := AppendNew(acc, s[..|s| - 1]);
      if s[|s| - 1] in r then r else r + [s[|s| - 1]]
  }

  /** The elements of `s` that occur in `t`, in the order of `s`. */
  function KeepIn<K(==)>(s: seq<K>, t: seq<K>): seq<K>
    decreases |s|
  {
    if s == [] then []
    else KeepIn(s[..|s| - 1], t) + (if s[|s| - 1] in t then [s[|s| - 1]] else [])
  }

  /** The elements of `s` that do not occur in `t`, in the order of `s`. */
  function KeepOut<K(==)>(s: seq<K>, t: seq<K>): seq<K>
    decreases |s|
  {
    if s == [] then []
    else KeepOut(s[..|s| - 1], t) + (if s[|s| - 1] in t then [] else [s[|s| - 1]])
  }

  /** The position of the first occurrence of `x` in `s`. */
  function FirstIndex<K(==)>(s: seq<K>, x: K): (i: nat)
    requires x in s
    ensures i < |s| && s[i] == x && x !in s[..i]
  {
    if s[0] == x then 0 else 1 + FirstIndex(s[1..], x)
  }

  // ---------------------------------------------------------------------------
  // the three vector operations
  // ---------------------------------------------------------------------------

  /** `uni`: every key of either vector once, in order of first occurrence. */
  method Uni<K(==)>(keys1: seq<K>, keys2: seq<K>) returns (keys: seq<K>)
    ensures keys == AppendNew([], keys1 + keys2)
    ensures NoDuplicates(keys)
    ensures forall k :: k in keys <==> k in keys1 || k in keys2
  {
    keys := [];
    for i := 0 to |keys1|
      invariant keys == AppendNew([], keys1[..i])
    {
      assert keys1[..i + 1][..i] == keys1[..i];
      if keys1[i] !in keys {
        keys := keys + [keys1[i]];
      }
    }
    assert keys1[..|keys1|] == keys1 + keys2[..0];
    for i := 0 to |keys2|
      invariant keys == AppendNew([], keys1 + keys2[..i])
    {
      assert (keys1 + keys2[..i + 1])[..|keys1| + i] == keys1 + keys2[..i];
      if keys2[i] !in keys {
        keys := keys + [keys2[i]];
      }
    }
    assert keys1 + keys2[..|keys2|] == keys1 + keys2;
    AppendNewContents([], keys1 + keys2);
    AppendNewNoDuplicates([], keys1 + keys2);
  }

  /** `difference`: the keys of `keys1` missing from `keys2`, then those of `keys2` missing from `keys1`. */
  method Difference<K(==)>(keys1: seq<K>, keys2: seq<K>) returns (keys: seq<K>)
    ensures keys == KeepOut(keys1, keys2) + KeepOut(keys2, keys1)
    ensures forall k :: k in keys <==> (k in keys1 <==> k !in keys2)
  {
    keys := [];
    for i := 0 to |keys1|
      invariant keys == KeepOut(keys1[..i], keys2)
    {
      assert keys1[..i + 1][..i] == keys1[..i];
      if keys1[i] !in keys2 {
        keys := keys + [keys1[i]];
      }
    }
    assert keys1[..|keys1|] == keys1;
    ghost var first := keys;
    for i := 0 to |keys2|
      invariant keys == first + KeepOut(keys2[..i], keys1)
    {
      assert keys2[..i + 1][..i] == keys2[..i];
      if keys2[i] !in keys1 {
        keys := keys + [keys2[i]];
      }
    }
    assert keys2[..|keys2|] == keys2;
    KeepOutContents(keys1, keys2);
    KeepOutContents(keys2, keys1);
  }

  /** `intersection`: the keys of `keys1` that occur in `keys2`, in the order of `keys1`. */
  method Intersection<K(==)>(keys1: seq<K>, keys2: seq<K>) returns (keys: seq<K>)
    ensures keys == KeepIn(keys1, keys2)
    ensures forall k :: multiset(keys)[k] == if k in keys2 then multiset(keys1)[k] else 0
  {
    keys := [];
    for i := 0 to |keys1|
      invariant keys == KeepIn(keys1[..i], keys2)
    {
      assert keys1[..i + 1][..i] == keys1[..i];
      if keys1[i] in keys2 {
        keys := keys + [keys1[i]];
      }
    }
    assert keys1[..|keys1|] == keys1;
    KeepInMultiset(keys1, keys2);
  }

  // ---------------------------------------------------------------------------
  // what the specification functions contain
  // ---------------------------------------------------------------------------

  lemma {:induction false} AppendNewContents<K>(acc: seq<K>, s: seq<K>)
    ensures forall k :: k in AppendNew(acc, s) <==> k in acc || k in s
    decreases |s|
  {
    if s != [] {
      var s' := s[..|s| - 1];
      AppendNewContents(acc, s');
      assert s == s' + [s[|s| - 1]];
    }
  }

  lemma {:induction false} AppendNewNoDuplicates<K>(acc: seq<K>, s: seq<K>)
    requires NoDuplicates(acc)
    ensures NoDuplicates(AppendNew(acc, s))
    decreases |s|
  {
    if s != [] {
      AppendNewNoDuplicates(acc, s[..|s| - 1]);
    }
  }

  /** The accumulator is kept as a prefix. */
  lemma {:induction false} AppendNewExtends<K>(acc: seq<K>, s: seq<K>)
    ensures |acc| <= |AppendNew(acc, s)| && AppendNew(acc, s)[..|acc|] == acc
    decreases |s|
  {
    if s != [] {
      AppendNewExtends(acc, s[..|s| - 1]);
    }
  }

  lemma {:induction false} FirstIndexOfPrefix<K>(a: seq<K>, b: seq<K>, x: K)
    requires x in a
    ensures FirstIndex(a + b, x) == FirstIndex(a, x)
    decreases |a|
  {
    if a[0] != x {
      assert (a + b)[1..] == a[1..] + b;
      FirstIndexOfPrefix(a[1..], b, x);
    }
  }

  lemma InAppendNew<K>(acc: seq<K>, s: seq<K>, y: K)
    requires y in AppendNew(acc, s)
    ensures y in acc + s
  {
    AppendNewContents(acc, s);
  }

  lemma FirstIndexOfNew<K>(a: seq<K>, x: K)
    requires x !in a
    ensures FirstIndex(a + [x], x) == |a|
  {
    var j := FirstIndex(a + [x], x);
  }

  /** Every key of `r` occurs in `k`, and a key placed earlier in `r` first occurs earlier in `k`. */
  ghost predicate FirstOccurrenceOrdered<K>(r: seq<K>, k: seq<K>)
  {
    forall i, j :: 0 <= i < j < |r| ==>
      (r[i] in k && r[j] in k && FirstIndex(k, r[i]) < FirstIndex(k, r[j]))
  }

  /**
   * The keys that `AppendNew` adds come in the order in which they first occur:
   * a key placed earlier in the result occurs earlier in `acc + s`.
   */
  lemma {:induction false} AppendNewFirstOccurrenceOrder<K>(acc: seq<K>, s: seq<K>)
    requires NoDuplicates(acc)
    ensures FirstOccurrenceOrdered(AppendNew(acc, s), acc + s)
    decreases |s|
  {
    var r := AppendNew(acc, s);
    if s == [] {
      assert acc + s == acc;
      forall i, j | 0 <= i < j < |r|
        ensures FirstIndex(acc + s, r[i]) < FirstIndex(acc + s, r[j])
      {
        var fi := FirstIndex(acc, acc[i]);
        var fj := FirstIndex(acc, acc[j]);
        assert fi == i && fj == j;
      }
    } else {
      var s' := s[..|s| - 1];
      var x := s[|s| - 1];
      var r' := AppendNew(acc, s');
      AppendNewFirstOccurrenceOrder(acc, s');
      assert acc + s == (acc + s') + [x];
      forall y | y in r'
        ensures y in acc + s' && FirstIndex(acc + s, y) == FirstIndex(acc + s', y)
      {
        InAppendNew(acc, s', y);
        FirstIndexOfPrefix(acc + s', [x], y);
      }
      if x !in r' {
        assert r == r' + [x];
        AppendNewContents(acc, s');
        FirstIndexOfNew(acc + s', x);
        forall i, j | 0 <= i < j < |r|
          ensures r[i] in acc + s && r[j] in acc + s && FirstIndex(acc + s, r[i]) < FirstIndex(acc + s, r[j])
        {
          assert r[i] == r'[i] && r[i] in r';
          if j < |r'| {
            assert r[j] == r'[j] && r[j] in r';
          } else {
            assert r[j] == x;
          }
        }
      } else {
        assert r == r';
        forall i, j | 0 <= i < j < |r|
          ensures r[i] in acc + s && r[j] in acc + s && FirstIndex(acc + s, r[i]) < FirstIndex(acc + s, r[j])
        {
          assert r[i] in r' && r[j] in r';
        }
      }
    }
  }

  /** `uni` is the first-occurrence de-duplication of the concatenation. */
  lemma UniFirstOccurrenceOrder<K>(keys1: seq<K>, keys2: seq<K>)
    ensures FirstOccurrenceOrdered(AppendNew([], keys1 + keys2), keys1 + keys2)
  {
    var k := keys1 + keys2;
    AppendNewFirstOccurrenceOrder([], k);
    assert [] + k == k;
  }

  lemma {:induction false} KeepOutContents<K>(s: seq<K>, t: seq<K>)
    ensures forall k :: k in KeepOut(s, t) <==> k in s && k !in t
    decreases |s|
  {
    if s != [] {
      KeepOutContents(s[..|s| - 1], t);
      assert s == s[..|s| - 1] + [s[|s| - 1]];
    }
  }

  /** The intersection keeps every copy of a shared key and no copy of any other. */
  lemma {:induction false} KeepInMultiset<K>(s: seq<K>, t: seq<K>)
    ensures forall k :: multiset(KeepIn(s, t))[k] == if k in t then multiset(s)[k] else 0
    decreases |s|
  {
    if s != [] {
      var s' := s[..|s| - 1];
      KeepInMultiset(s', t);
      assert s == s' + [s[|s| - 1]];
    }
  }

  /** Filtering commutes with concatenation, so the order of `s` is kept. */
  lemma {:induction false} KeepInConcat<K>(a: seq<K>, b: seq<K>, t: seq<K>)
    ensures KeepIn(a + b, t) == KeepIn(a, t) + KeepIn(b, t)
    decreases |b|
  {
    if b == [] {
      assert a + b == a;
    } else {
      var b' := b[..|b| - 1];
      KeepInConcat(a, b', t);
      assert (a + b)[..|a + b| - 1] == a + b';
    }
  }

  // ---------------------------------------------------------------------------
  // is_neighbour
  // ---------------------------------------------------------------------------

  /** The two boundaries share a key. */
  predicate Share<K(==)>(boundary1: seq<K>, boundary2: seq<K>)
  {
    exists k :: k in boundary1 && k in boundary2
  }

  /** `is_neighbour(key1, key2)`: the two boundaries share a key. */
  method IsNeighbour<K(==)>(boundary1: seq<K>, boundary2: seq<K>) returns (r: bool)
    ensures r <==> Share(boundary1, boundary2)
  {
    for i := 0 to |boundary2|
      invariant forall j :: 0 <= j < i ==> boundary2[j] !in boundary1
    {
      if boundary2[i] in boundary1 {
        return true;
      }
    }
    return false;
  }

  /** `k` lies on one of the boundaries in `boundaries`. */
  predicate InSome<K(==)>(k: K, boundaries: seq<seq<K>>)
  {
    exists j :: 0 <= j < |boundaries| && k in boundaries[j]
  }

  /** The positions of `boundary` whose key lies on one of `boundaries`. */
  function SharedPositions<K(==)>(boundary: seq<K>, boundaries: seq<seq<K>>): set<nat>
  {
    SharedBefore(boundary, boundaries, |boundary|)
  }

  /**
   * `is_neighbour(key, keys)`: counts the positions of the key's boundary that
   * lie on the boundary of some key of `keys` (stopping the inner search at the
   * first hit) and compares that count with the number of keys.
   */
  method IsNeighbourOfAll<K(==)>(boundary: seq<K>, boundaries: seq<seq<K>>) returns (r: bool)
    ensures r <==> |SharedPositions(boundary, boundaries)| == |boundaries|
  {
    var i := 0;
    for p := 0 to |boundary|
      invariant i == |SharedBefore(boundary, boundaries, p)|
    {
      var hit := OnSome(boundary[p], boundaries);
      SharedBeforeStep(boundary, boundaries, p);
      if hit {
        i := i + 1;
      }
    }
    r := i == |boundaries|;
  }

  /** The inner loop of `is_neighbour(key, keys)`: does `k` lie on one of `boundaries`? */
  method OnSome<K(==)>(k: K, boundaries: seq<seq<K>>) returns (hit: bool)
    ensures hit <==> InSome(k, boundaries)
  {
    hit := false;
    var j := 0;
    while j < |boundaries| && !hit
      invariant 0 <= j <= |boundaries|
      invariant hit <==> exists j' :: 0 <= j' < j && k in boundaries[j']
    {
      if k in boundaries[j] {
        hit := true;
      }
      j := j + 1;
    }
  }

  /** The shared positions below `p`. */
  function SharedBefore<K(==)>(boundary: seq<K>, boundaries: seq<seq<K>>, p: nat): set<nat>
    requires p <= |boundary|
  {
    set q: nat | q < p && InSome(boundary[q], boundaries)
  }

  lemma SharedBeforeStep<K>(boundary: seq<K>, boundaries: seq<seq<K>>, p: nat)
    requires p < |boundary|
    ensures SharedBefore(boundary, boundaries, p + 1) ==
      SharedBefore(boundary, boundaries, p) + (if InSome(boundary[p], boundaries) then {p} else {})
    ensures p !in SharedBefore(boundary, boundaries, p)
  {
  }

  /** Compared with a single key, the test holds iff exactly one position of the boundary is shared. */
  lemma NeighbourOfOne<K>(boundary: seq<K>, other: seq<K>)
    ensures |SharedPositions(boundary, [other])| == 1 <==>
      exists p :: 0 <= p < |boundary| && boundary[p] in other &&
        forall q :: 0 <= q < |boundary| && q != p ==> boundary[q] !in other
  {
    var sp := SharedPositions(boundary, [other]);
    SharedWithOne(boundary, other);
    if |sp| == 1 {
      var p :| p in sp;
      forall q | 0 <= q < |boundary| && q != p
        ensures boundary[q] !in other
      {
        if boundary[q] in other {
          assert q in sp;
          SubsetSize({p, q}, sp);
        }
      }
    }
    if p :| (0 <= p < |boundary| && boundary[p] in other &&
        (forall q :: 0 <= q < |boundary| && q != p ==> boundary[q] !in other)) {
      assert sp == {p};
    }
  }

  lemma SharedWithOne<K>(boundary: seq<K>, other: seq<K>)
    ensures forall p: nat :: p in SharedPositions(boundary, [other]) <==> p < |boundary| && boundary[p] in other
  {
    forall p: nat | p < |boundary| && boundary[p] in other
      ensures InSome(boundary[p], [other])
    {
      assert [other][0] == other;
    }
  }

  /** At most one count per boundary position: a key can never pass the test against more keys than its boundary has. */
  lemma SharedPositionsBound<K>(boundary: seq<K>, boundaries: seq<seq<K>>)
    ensures |SharedPositions(boundary, boundaries)| <= |boundary|
  {
    BoundedSetSize(SharedPositions(boundary, boundaries), |boundary|);
  }

  /** A set of naturals below `n` has at most `n` elements. */
  lemma {:induction false} BoundedSetSize(s: set<nat>, n: nat)
    requires forall x :: x in s ==> x < n
    ensures |s| <= n
    decreases n
  {
    if n > 0 {
      BoundedSetSize(s - {n - 1}, n - 1);
    }
  }

  lemma SubsetSize<T>(a: set<T>, b: set<T>)
    requires a <= b
    ensures |a| <= |b|
  {
    assert b == a + (b - a);
  }
}
