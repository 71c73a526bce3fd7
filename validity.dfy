/**
 * What `validity_check` asserts of every tetrahedron, level by level: four
 * faces, each lying between one tetrahedron (boundary) or two (not boundary)
 * among which this one, the faces pairwise neighbours; three edges per face,
 * each naming the face among its co-faces, pairwise neighbours; two existing
 * nodes per edge, each naming the edge among its co-edges; and six edges and
 * four nodes in the tetrahedron's closure.
 */
module Validity {
  import opened Keys
  import opened Incidence
  import opened FlagRules
  import opened KeyVectors

  /** The checks on edge `e` of face `f`, whose edges are `es`. */
  predicate EdgeChecked(c: Complex, f: FaceKey, es: seq<EdgeKey>, e: EdgeKey)
  {
    e in c.edges && f in c.edges[e].coFaces &&
    (forall e2 :: e2 in es ==> e == e2 || (e2 in c.edges && Share(c.edges[e].nodes, c.edges[e2].nodes))) &&
    |c.edges[e].nodes| == 2 &&
    forall n :: n in c.edges[e].nodes ==> n in c.nodes && e in c.nodes[n].coEdges
  }

  /** The checks on face `f` of tetrahedron `t`, whose faces are `fs`. */
  predicate FaceChecked(c: Complex, faceFlags: map<FaceKey, FaceFlags>, t: TetKey, fs: seq<FaceKey>, f: FaceKey)
  {
    f in c.faces && f in faceFlags &&
    (var coTets := c.faces[f].coTets;
     ((faceFlags[f].boundary && |coTets| == 1) || (!faceFlags[f].boundary && |coTets| == 2)) && t in coTets) &&
    (forall f2 :: f2 in fs ==> f == f2 || (f2 in c.faces && Share(c.faces[f].edges, c.faces[f2].edges))) &&
    |c.faces[f].edges| == 3 &&
    forall e :: e in c.faces[f].edges ==> EdgeChecked(c, f, c.faces[f].edges, e)
  }

  /** The checks on tetrahedron `t`. */
  predicate TetChecked(c: Complex, faceFlags: map<FaceKey, FaceFlags>, t: TetKey)
  {
    t in c.tets &&
    |c.tets[t].faces| == 4 &&
    (forall f :: f in c.tets[t].faces ==> FaceChecked(c, faceFlags, t, c.tets[t].faces, f)) &&
    |Closure(c, TetSet(t)).edges| == 6 && |Closure(c, TetSet(t)).nodes| == 4
  }

  /** Every tetrahedron passes. */
  predicate MeshChecked(c: Complex, faceFlags: map<FaceKey, FaceFlags>)
  {
    forall t :: t in c.tets ==> TetChecked(c, faceFlags, t)
  }

  // ---------------------------------------------------------------------------
  // what passing the check means
  // ---------------------------------------------------------------------------

  /** A sequence of at most two keys holds at most two different ones. */
  lemma AtMostTwo<K>(s: seq<K>, x: K, y: K, z: K)
    requires |s| <= 2 && x in s && y in s && z in s
    ensures x == y || x == z || y == z
  {
    assert forall k :: k in s ==> k == s[0] || k == s[|s| - 1];
  }

  /**
   * On a linked complex that passes the check no face lies between more
   * than two tetrahedra: every tetrahedron around a face has the face, so
   * the face's co-tetrahedra were counted.
   */
  lemma CheckedManifold(c: Complex, faceFlags: map<FaceKey, FaceFlags>)
    requires FacesTetsLinked(c) && MeshChecked(c, faceFlags)
    ensures Manifold(c)
  {
    forall f, t1, t2, t3 |
      f in c.faces && t1 in c.faces[f].coTets && t2 in c.faces[f].coTets && t3 in c.faces[f].coTets
      ensures t1 == t2 || t1 == t3 || t2 == t3
    {
      assert TetChecked(c, faceFlags, t1);
      assert FaceChecked(c, faceFlags, t1, c.tets[t1].faces, f);
      AtMostTwo(c.faces[f].coTets, t1, t2, t3);
    }
  }

  /**
   * On a complex that passes the check, each face of a tetrahedron has one
   * or two tetrahedra around it, and one only when it is flagged boundary.
   */
  lemma CheckedFaceStar(c: Complex, faceFlags: map<FaceKey, FaceFlags>, t: TetKey, f: FaceKey)
    requires MeshChecked(c, faceFlags) && t in c.tets && f in c.tets[t].faces
    ensures var star := StarOfFace(c, f).tets;
      t in star && 1 <= |star| <= 2 && (faceFlags[f].boundary ==> star == {t})
  {
    assert TetChecked(c, faceFlags, t);
    assert FaceChecked(c, faceFlags, t, c.tets[t].faces, f);
    var coTets := c.faces[f].coTets;
    FaceStarIsCoTets(c, f);
    CoTetsCount(coTets, t);
  }

  /** The keys of a list of one or two that holds `t`. */
  lemma CoTetsCount(coTets: seq<TetKey>, t: TetKey)
    requires (|coTets| == 1 || |coTets| == 2) && t in coTets
    ensures var star := set u | u in coTets;
      t in star && 1 <= |star| <= 2 && (|coTets| == 1 ==> star == {t})
  {
    var star := set u | u in coTets;
    if |coTets| == 1 {
      assert coTets == [t];
      assert star == {t};
    } else if coTets[0] == coTets[1] {
      assert star == {t};
    } else {
      assert star == {coTets[0], coTets[1]};
    }
  }

  /** The link clauses of the check hold on every linked complex. */
  lemma LinkedPassesLinks(c: Complex, t: TetKey, f: FaceKey, e: EdgeKey, n: NodeKey)
    requires Linked(c) && t in c.tets && f in c.tets[t].faces
    ensures f in c.faces && t in c.faces[f].coTets
    ensures e in c.faces[f].edges ==> e in c.edges && f in c.edges[e].coFaces
    ensures e in c.faces[f].edges && n in c.edges[e].nodes ==> n in c.nodes && e in c.nodes[n].coEdges
  {
  }

  /** Tetrahedra listed at most once: the list is as long as the set of its keys. */
  lemma {:induction false} DistinctCount(s: seq<TetKey>)
    requires NoDuplicates(s)
    ensures |set k: TetKey | k in s| == |s|
  {
    if s != [] {
      var s' := s[..|s| - 1];
      var x := s[|s| - 1];
      assert NoDuplicates(s');
      DistinctCount(s');
      assert s == s' + [x];
      var before := set k: TetKey | k in s';
      var after := set k: TetKey | k in s;
      assert after == before + {x};
      assert x !in before;
      assert |after| == |before| + 1;
    } else {
      assert (set k: TetKey | k in s) == {};
    }
  }

  /** An up-to-date boundary flag says whether one tetrahedron lies around the face. */
  lemma CurrentBoundary(c: Complex, labels: map<TetKey, int>, st: FlagState, f: FaceKey)
    requires FacesTetsLinked(c) && Covers(c, labels, st) && CurrentOn(c, labels, st, Everything(c))
    requires f in c.faces
    ensures st.faces[f].boundary <==> |StarOfFace(c, f).tets| == 1
  {
    assert f in Everything(c).faces;
    assert st.faces[f] == FaceFlagsOf(c, labels, f);
  }

  /** With at most two tetrahedra around a face, a face listing them once each lists at most two. */
  lemma ManifoldCoTets(c: Complex, f: FaceKey)
    requires Manifold(c) && f in c.faces && NoDuplicates(c.faces[f].coTets)
    ensures |c.faces[f].coTets| <= 2
  {
    var coTets := c.faces[f].coTets;
    if |coTets| > 2 {
      FirstThreeDistinct(coTets);
    }
  }

  /** The first three keys of a list without repeats are three different keys of it. */
  lemma FirstThreeDistinct(s: seq<TetKey>)
    requires NoDuplicates(s) && |s| > 2
    ensures s[0] in s && s[1] in s && s[2] in s && s[0] != s[1] && s[0] != s[2] && s[1] != s[2]
  {
  }

  /**
   * The flags `update` leaves pass the co-tetrahedra clause of the check:
   * on a linked complex with at most two tetrahedra per face, listed once
   * each, a face of a tetrahedron has one or two co-tetrahedra, and its
   * up-to-date boundary flag says which.
   */
  lemma CurrentPassesCoTets(c: Complex, labels: map<TetKey, int>, st: FlagState, t: TetKey, f: FaceKey)
    requires Linked(c) && Manifold(c) && Covers(c, labels, st) && CurrentOn(c, labels, st, Everything(c))
    requires t in c.tets && f in c.tets[t].faces && NoDuplicates(c.faces[f].coTets)
    ensures var coTets := c.faces[f].coTets;
      ((st.faces[f].boundary && |coTets| == 1) || (!st.faces[f].boundary && |coTets| == 2)) && t in coTets
  {
    var coTets := c.faces[f].coTets;
    assert t in coTets;
    ManifoldCoTets(c, f);
    FaceStarIsCoTets(c, f);
    DistinctCount(coTets);
    assert StarOfFace(c, f).tets == set k: TetKey | k in coTets;
    CurrentBoundary(c, labels, st, f);
  }
}
