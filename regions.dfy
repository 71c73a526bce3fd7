/**
 * Label-connected regions of tetrahedra. `connected_component` walks from a
 * tetrahedron through each of its faces to the tetrahedron on the other side
 * (`get_tet`) whenever the two carry the same label; `crossing` counts how many
 * such walks it takes to use up the tetrahedra around a node. This module
 * states reachability along those steps and proves that, on a complex whose
 * faces have at most two tetrahedra, it is an equivalence.
 */
module Regions {
  import opened Keys
  import opened Incidence
  import opened KeyVectors

  /** One step of the walk: from `u` through one of its faces to the other tetrahedron, same label. */
  ghost predicate Adjacent(c: Complex, labels: map<TetKey, int>, u: TetKey, v: TetKey)
  {
    u in c.tets && u in labels && v in labels && labels[u] == labels[v] &&
    exists f :: f in c.tets[u].faces && GetTet(c, u, f) == Some(v)
  }

  /** A walk whose tetrahedra after the first all lie in `s`. */
  ghost predicate IsPath(c: Complex, labels: map<TetKey, int>, s: set<TetKey>, p: seq<TetKey>)
  {
    |p| >= 1 &&
    (forall i :: 1 <= i < |p| ==> p[i] in s) &&
    (forall i :: 0 <= i < |p| - 1 ==> Adjacent(c, labels, p[i], p[i + 1]))
  }

  ghost predicate Reach(c: Complex, labels: map<TetKey, int>, s: set<TetKey>, u: TetKey, v: TetKey)
  {
    exists p :: IsPath(c, labels, s, p) && p[0] == u && p[|p| - 1] == v
  }

  /** Three tetrahedra of `s`, no two of them connected within `s`: at least three regions meet. */
  ghost predicate ThreeComponents(c: Complex, labels: map<TetKey, int>, s: set<TetKey>)
  {
    exists a, b, d :: a in s && b in s && d in s &&
      !Reach(c, labels, s, a, b) && !Reach(c, labels, s, a, d) && !Reach(c, labels, s, b, d)
  }

  // ---------------------------------------------------------------------------
  // reachability is an equivalence
  // ---------------------------------------------------------------------------

  lemma ReachRefl(c: Complex, labels: map<TetKey, int>, s: set<TetKey>, u: TetKey)
    ensures Reach(c, labels, s, u, u)
  {
    assert IsPath(c, labels, s, [u]);
  }

  lemma ReachStep(c: Complex, labels: map<TetKey, int>, s: set<TetKey>, u: TetKey, v: TetKey, w: TetKey)
    requires Reach(c, labels, s, u, v) && Adjacent(c, labels, v, w) && w in s
    ensures Reach(c, labels, s, u, w)
  {
    var p :| IsPath(c, labels, s, p) && p[0] == u && p[|p| - 1] == v;
    var q := p + [w];
    assert IsPath(c, labels, s, q);
  }

  lemma ReachTrans(c: Complex, labels: map<TetKey, int>, s: set<TetKey>, u: TetKey, v: TetKey, w: TetKey)
    requires Reach(c, labels, s, u, v) && Reach(c, labels, s, v, w)
    ensures Reach(c, labels, s, u, w)
  {
    var p :| IsPath(c, labels, s, p) && p[0] == u && p[|p| - 1] == v;
    var q :| IsPath(c, labels, s, q) && q[0] == v && q[|q| - 1] == w;
    var r := p + q[1..];
    forall i | 0 <= i < |r| - 1 ensures Adjacent(c, labels, r[i], r[i + 1]) {
      if i < |p| - 1 {
        assert r[i] == p[i] && r[i + 1] == p[i + 1];
      } else {
        assert r[i] == q[i - |p| + 1] && r[i + 1] == q[i - |p| + 2];
      }
    }
    forall i | 1 <= i < |r| ensures r[i] in s {
      if i >= |p| {
        assert r[i] == q[i - |p| + 1];
      }
    }
    assert IsPath(c, labels, s, r);
  }

  lemma ReachMono(c: Complex, labels: map<TetKey, int>, s: set<TetKey>, s': set<TetKey>, u: TetKey, v: TetKey)
    requires s <= s' && Reach(c, labels, s, u, v)
    ensures Reach(c, labels, s', u, v)
  {
    var p :| IsPath(c, labels, s, p) && p[0] == u && p[|p| - 1] == v;
    assert IsPath(c, labels, s', p);
  }

  /** The step relation is symmetric when no face has more than two tetrahedra. */
  lemma AdjacentSymmetric(c: Complex, labels: map<TetKey, int>, u: TetKey, v: TetKey)
    requires FacesTetsLinked(c) && Manifold(c)
    requires Adjacent(c, labels, u, v)
    ensures Adjacent(c, labels, v, u)
  {
    var f :| f in c.tets[u].faces && GetTet(c, u, f) == Some(v);
    GetTetSymmetric(c, u, v, f);
  }

  lemma ReachSymmetric(c: Complex, labels: map<TetKey, int>, s: set<TetKey>, u: TetKey, v: TetKey)
    requires FacesTetsLinked(c) && Manifold(c)
    requires u in s && Reach(c, labels, s, u, v)
    ensures Reach(c, labels, s, v, u)
  {
    var p :| IsPath(c, labels, s, p) && p[0] == u && p[|p| - 1] == v;
    var r := ReversedPath(c, labels, s, p);
  }

  /** A path from a tetrahedron of `s`, walked backwards. */
  lemma ReversedPath(c: Complex, labels: map<TetKey, int>, s: set<TetKey>, p: seq<TetKey>) returns (r: seq<TetKey>)
    requires FacesTetsLinked(c) && Manifold(c) && IsPath(c, labels, s, p) && p[0] in s
    ensures IsPath(c, labels, s, r) && r[0] == p[|p| - 1] && r[|r| - 1] == p[0]
  {
    r := seq(|p|, i requires 0 <= i < |p| => p[|p| - 1 - i]);
    forall i | 0 <= i < |r| - 1 ensures Adjacent(c, labels, r[i], r[i + 1]) {
      var j := |p| - 2 - i;
      assert r[i] == p[j + 1] && r[i + 1] == p[j];
      assert Adjacent(c, labels, p[j], p[j + 1]);
      AdjacentSymmetric(c, labels, p[j], p[j + 1]);
    }
    forall i | 1 <= i < |r| ensures r[i] in s {
      var j := |p| - 1 - i;
      assert r[i] == p[j];
      assert j == 0 || p[j] in s;
    }
  }

  /** Every step keeps the label, so a region is single-labelled. */
  lemma ReachKeepsLabel(c: Complex, labels: map<TetKey, int>, s: set<TetKey>, u: TetKey, v: TetKey)
    requires u in labels && Reach(c, labels, s, u, v)
    ensures v in labels && labels[v] == labels[u]
  {
    var p :| IsPath(c, labels, s, p) && p[0] == u && p[|p| - 1] == v;
    var i := 0;
    while i < |p| - 1
      invariant 0 <= i <= |p| - 1
      invariant p[i] in labels && labels[p[i]] == labels[u]
    {
      assert Adjacent(c, labels, p[i], p[i + 1]);
      i := i + 1;
    }
  }

  /**
   * Reachability within `s` depends on the labels of `s` and of the start only.
   */
  lemma ReachSameLabels(c: Complex, labels: map<TetKey, int>, labels': map<TetKey, int>,
                        s: set<TetKey>, u: TetKey, v: TetKey)
    requires forall x :: x in s || x == u ==> (x in labels <==> x in labels') && (x in labels ==> labels[x] == labels'[x])
    requires Reach(c, labels, s, u, v)
    ensures Reach(c, labels', s, u, v)
  {
    var p :| IsPath(c, labels, s, p) && p[0] == u && p[|p| - 1] == v;
    forall i | 0 <= i < |p| - 1 ensures Adjacent(c, labels', p[i], p[i + 1]) {
      assert Adjacent(c, labels, p[i], p[i + 1]);
      assert p[i] in s || p[i] == u;
      assert p[i + 1] in s;
    }
    assert IsPath(c, labels', s, p);
  }

  /** Whether three regions meet in `s` depends only on the labels inside `s`. */
  lemma ThreeComponentsSameLabels(c: Complex, labels: map<TetKey, int>, labels': map<TetKey, int>, s: set<TetKey>)
    requires forall x :: x in s ==> (x in labels <==> x in labels') && (x in labels ==> labels[x] == labels'[x])
    ensures ThreeComponents(c, labels, s) <==> ThreeComponents(c, labels', s)
  {
    forall u, v | u in s && Reach(c, labels', s, u, v) ensures Reach(c, labels, s, u, v) {
      ReachSameLabels(c, labels', labels, s, u, v);
    }
    forall u, v | u in s && Reach(c, labels, s, u, v) ensures Reach(c, labels', s, u, v) {
      ReachSameLabels(c, labels, labels', s, u, v);
    }
  }

  // ---------------------------------------------------------------------------
  // counting regions the way `crossing` does
  // ---------------------------------------------------------------------------

  /**
   * What one `connected_component(s, t)` call leaves: `s'` is `s` without `t`
   * and without tetrahedra `t` reaches, and nothing removed (nor `t`) is
   * adjacent to anything left.
   */
  ghost predicate Peeled(c: Complex, labels: map<TetKey, int>, s: set<TetKey>, t: TetKey, s': set<TetKey>)
  {
    s' <= s - {t} &&
    (forall x :: x in s && x !in s' ==> x == t || Reach(c, labels, s, t, x)) &&
    (forall x, y :: (x == t || (x in s && x !in s')) && y in s' ==> !Adjacent(c, labels, x, y))
  }

  /**
   * The state of `connected_component(s, t)` after it has looked through the
   * faces in `done`: what it has removed is reached from `t` and not adjacent
   * to what is left, and through no face in `done` does `t` see a tetrahedron
   * left in `s'` with its label.
   */
  ghost predicate Peeling(c: Complex, labels: map<TetKey, int>, s: set<TetKey>, t: TetKey, s': set<TetKey>,
                          done: set<FaceKey>)
    requires t in labels && s <= labels.Keys
  {
    s' <= s - {t} &&
    (forall x :: x in s && x !in s' ==> x == t || Reach(c, labels, s, t, x)) &&
    (forall x, y :: x in s && x !in s' && x != t && y in s' ==> !Adjacent(c, labels, x, y)) &&
    (forall g, y :: g in done && y in s' && GetTet(c, t, g) == Some(y) ==> labels[y] != labels[t])
  }

  lemma PeelingStart(c: Complex, labels: map<TetKey, int>, s: set<TetKey>, t: TetKey)
    requires t in labels && s <= labels.Keys
    ensures Peeling(c, labels, s, t, s - {t}, {})
  {
  }

  /** A face through which nothing with `t`'s label is left is passed over. */
  lemma PeelingSkip(c: Complex, labels: map<TetKey, int>, s: set<TetKey>, t: TetKey, s': set<TetKey>,
                    done: set<FaceKey>, g: FaceKey)
    requires t in labels && s <= labels.Keys && Peeling(c, labels, s, t, s', done)
    requires !(GetTet(c, t, g).Some? && GetTet(c, t, g).value in s' && labels[GetTet(c, t, g).value] == labels[t])
    ensures Peeling(c, labels, s, t, s', done + {g})
  {
  }

  /** Across `g` lies `u`, left in `s'` with `t`'s label: removing `u`'s region keeps the state. */
  lemma PeelingRecurse(c: Complex, labels: map<TetKey, int>, s: set<TetKey>, t: TetKey, s': set<TetKey>,
                       done: set<FaceKey>, g: FaceKey, u: TetKey, s'': set<TetKey>)
    requires t in labels && s <= labels.Keys && Peeling(c, labels, s, t, s', done)
    requires t in c.tets && g in c.tets[t].faces
    requires GetTet(c, t, g) == Some(u) && u in s' && labels[u] == labels[t]
    requires Peeled(c, labels, s', u, s'')
    ensures Peeling(c, labels, s, t, s'', done + {g})
  {
    assert Adjacent(c, labels, t, u);
    ReachRefl(c, labels, s, t);
    ReachStep(c, labels, s, t, t, u);
    forall x | x in s && x !in s''
      ensures x == t || Reach(c, labels, s, t, x)
    {
      if x in s' && x != u {
        ReachMono(c, labels, s', s, u, x);
        ReachTrans(c, labels, s, t, u, x);
      }
    }
  }

  /** Every face of `t` looked through: the removal is a `Peeled` one. */
  lemma PeelingDone(c: Complex, labels: map<TetKey, int>, s: set<TetKey>, t: TetKey, s': set<TetKey>)
    requires t in labels && s <= labels.Keys && t in c.tets
    requires Peeling(c, labels, s, t, s', set f | f in c.tets[t].faces)
    ensures Peeled(c, labels, s, t, s')
  {
    forall y | y in s' ensures !Adjacent(c, labels, t, y) {
    }
  }

  /**
   * The state of the count in `crossing`: `reps` are the seeds of the regions
   * removed so far from `s0`, leaving `s`. The seeds are pairwise unconnected,
   * every removed tetrahedron is connected to a seed, and no seed reaches a
   * tetrahedron still left.
   */
  ghost predicate Separated(c: Complex, labels: map<TetKey, int>, s0: set<TetKey>, s: set<TetKey>, reps: seq<TetKey>)
  {
    s <= s0 &&
    (forall i :: 0 <= i < |reps| ==> reps[i] in s0 && reps[i] !in s) &&
    (forall i, j :: 0 <= i < |reps| && 0 <= j < |reps| && i != j ==> !Reach(c, labels, s0, reps[i], reps[j])) &&
    (forall x :: x in s0 && x !in s ==> exists i :: 0 <= i < |reps| && Reach(c, labels, s0, reps[i], x)) &&
    (forall i, x :: 0 <= i < |reps| && x in s ==> !Reach(c, labels, s0, reps[i], x))
  }

  /** A path that starts outside `inner` and ends inside it steps into `inner` somewhere. */
  lemma PathEnters(c: Complex, labels: map<TetKey, int>, s: set<TetKey>, p: seq<TetKey>, inner: set<TetKey>)
    returns (k: nat)
    requires IsPath(c, labels, s, p) && p[0] !in inner && p[|p| - 1] in inner
    ensures 1 <= k < |p| && p[k - 1] !in inner && p[k] in inner
    ensures Reach(c, labels, s, p[0], p[k - 1])
  {
    k := 1;
    while p[k] !in inner
      invariant 1 <= k < |p| && p[k - 1] !in inner
      decreases |p| - k
    {
      k := k + 1;
    }
    assert IsPath(c, labels, s, p[..k]);
  }

  /**
   * Removing the region of a fresh seed `t` (all of `s` that `t` reaches, and
   * nothing `t` does not) keeps the count's state.
   */
  lemma SeparatedStep(c: Complex, labels: map<TetKey, int>, s0: set<TetKey>, s: set<TetKey>, s': set<TetKey>,
                      t: TetKey, reps: seq<TetKey>)
    requires FacesTetsLinked(c) && Manifold(c)
    requires Separated(c, labels, s0, s, reps) && t in s && Peeled(c, labels, s, t, s')
    ensures Separated(c, labels, s0, s', reps + [t])
  {
    var reps' := reps + [t];
    forall i, j | 0 <= i < |reps'| && 0 <= j < |reps'| && i != j
      ensures !Reach(c, labels, s0, reps'[i], reps'[j])
    {
      if j == |reps| {
        assert reps'[i] == reps[i];
      } else if i == |reps| {
        assert reps'[j] == reps[j];
        if Reach(c, labels, s0, t, reps[j]) {
          ReachSymmetric(c, labels, s0, t, reps[j]);
        }
      }
    }
    forall x | x in s0 && x !in s'
      ensures exists i :: 0 <= i < |reps'| && Reach(c, labels, s0, reps'[i], x)
    {
      if x !in s {
        var i :| 0 <= i < |reps| && Reach(c, labels, s0, reps[i], x);
        assert reps'[i] == reps[i];
      } else if x == t {
        ReachRefl(c, labels, s0, t);
        assert reps'[|reps|] == t;
      } else {
        ReachMono(c, labels, s, s0, t, x);
        assert reps'[|reps|] == t;
      }
    }
    forall i, x | 0 <= i < |reps'| && x in s'
      ensures !Reach(c, labels, s0, reps'[i], x)
    {
      if i < |reps| {
        assert reps'[i] == reps[i];
      } else if Reach(c, labels, s0, t, x) {
        var p :| IsPath(c, labels, s0, p) && p[0] == t && p[|p| - 1] == x;
        var k := PathEnters(c, labels, s0, p, s');
        var y := p[k - 1];
        assert Adjacent(c, labels, y, p[k]);
        if y == t || y in s {
          assert false;
        } else {
          assert y in s0;
          var j :| 0 <= j < |reps| && Reach(c, labels, s0, reps[j], y);
          ReachStep(c, labels, s0, reps[j], y, p[k]);
          assert false;
        }
      }
    }
  }

  /** One more region peeled off: still separated, and fewer tetrahedra left. */
  lemma SeparatedShrinks(c: Complex, labels: map<TetKey, int>, s0: set<TetKey>, s: set<TetKey>, s': set<TetKey>,
                         t: TetKey, reps: seq<TetKey>)
    requires FacesTetsLinked(c) && Manifold(c)
    requires Separated(c, labels, s0, s, reps) && t in s && Peeled(c, labels, s, t, s')
    ensures Separated(c, labels, s0, s', reps + [t]) && s' <= s && |s'| < |s|
  {
    SubsetSize(s', s - {t});
    SeparatedStep(c, labels, s0, s, s', t, reps);
  }

  /** Two seeds removed and a tetrahedron left over: three regions meet. */
  lemma SeparatedThree(c: Complex, labels: map<TetKey, int>, s0: set<TetKey>, s: set<TetKey>, reps: seq<TetKey>, t: TetKey)
    requires Separated(c, labels, s0, s, reps) && |reps| == 2 && t in s
    ensures ThreeComponents(c, labels, s0)
  {
    assert !Reach(c, labels, s0, reps[0], reps[1]);
    assert !Reach(c, labels, s0, reps[0], t) && !Reach(c, labels, s0, reps[1], t);
  }

  /** Two tetrahedra reached from one seed are connected to each other. */
  lemma SharedSeed(c: Complex, labels: map<TetKey, int>, s0: set<TetKey>, r: TetKey, a: TetKey, b: TetKey)
    requires FacesTetsLinked(c) && Manifold(c)
    requires r in s0 && Reach(c, labels, s0, r, a) && Reach(c, labels, s0, r, b)
    ensures Reach(c, labels, s0, a, b)
  {
    ReachSymmetric(c, labels, s0, r, a);
    ReachTrans(c, labels, s0, a, r, b);
  }

  /** Everything removed with at most two seeds: no three regions meet. */
  lemma SeparatedDone(c: Complex, labels: map<TetKey, int>, s0: set<TetKey>, reps: seq<TetKey>)
    requires FacesTetsLinked(c) && Manifold(c)
    requires Separated(c, labels, s0, {}, reps) && |reps| <= 2
    ensures !ThreeComponents(c, labels, s0)
  {
    if |reps| == 0 {
      assert s0 == {};
    } else {
      CoveredByTwo(c, labels, s0, reps);
      TwoSeeds(c, labels, s0, reps[0], reps[|reps| - 1]);
    }
  }

  lemma CoveredByTwo(c: Complex, labels: map<TetKey, int>, s0: set<TetKey>, reps: seq<TetKey>)
    requires 1 <= |reps| <= 2
    requires forall x :: x in s0 ==> exists i :: 0 <= i < |reps| && Reach(c, labels, s0, reps[i], x)
    ensures forall x :: x in s0 ==> Reach(c, labels, s0, reps[0], x) || Reach(c, labels, s0, reps[|reps| - 1], x)
  {
    forall x | x in s0 ensures Reach(c, labels, s0, reps[0], x) || Reach(c, labels, s0, reps[|reps| - 1], x) {
      var i :| 0 <= i < |reps| && Reach(c, labels, s0, reps[i], x);
      assert i == 0 || i == |reps| - 1;
    }
  }

  lemma TwoSeeds(c: Complex, labels: map<TetKey, int>, s0: set<TetKey>, r0: TetKey, r1: TetKey)
    requires FacesTetsLinked(c) && Manifold(c) && r0 in s0 && r1 in s0
    requires forall x :: x in s0 ==> Reach(c, labels, s0, r0, x) || Reach(c, labels, s0, r1, x)
    ensures !ThreeComponents(c, labels, s0)
  {
    forall a, b, d | a in s0 && b in s0 && d in s0
      ensures Reach(c, labels, s0, a, b) || Reach(c, labels, s0, a, d) || Reach(c, labels, s0, b, d)
    {
      var r := if Reach(c, labels, s0, r0, a) then r0 else r1;
      if Reach(c, labels, s0, r, b) {
        SharedSeed(c, labels, s0, r, a, b);
      } else if Reach(c, labels, s0, r, d) {
        SharedSeed(c, labels, s0, r, a, d);
      } else {
        SharedSeed(c, labels, s0, if r == r0 then r1 else r0, b, d);
      }
    }
  }

  /** The walk `connected_component` performs, on the complex and labels it reads. */
  method Peel(c: Complex, ls: map<TetKey, int>, s: set<TetKey>, t: TetKey) returns (s': set<TetKey>)
    requires t in c.tets && s <= c.tets.Keys && c.tets.Keys <= ls.Keys
    ensures Peeled(c, ls, s, t, s')
    decreases 2 * |s| + (if t in s then 1 else 2)
  {
    var l := ls[t];
    s' := s - {t};
    PeelingStart(c, ls, s, t);
    var todo := Closure(c, TetSet(t)).faces;
    TetClosureFaces(c, t);
    ghost var faces := todo;
    while todo != {}
      invariant todo <= faces && Peeling(c, ls, s, t, s', faces - todo)
      decreases |todo|
    {
      var g :| g in todo;
      var t2 := GetTet(c, t, g);
      if t2.Some? && t2.value in s' && l == ls[t2.value] {
        var u := t2.value;
        ghost var s1 := s';
        SubsetSize(s1, s - {t});
        s' := Peel(c, ls, s', u);
        PeelingRecurse(c, ls, s, t, s1, faces - todo, g, u, s');
      } else {
        PeelingSkip(c, ls, s, t, s', faces - todo, g);
      }
      DoneStep(faces, todo, g);
      todo := todo - {g};
    }
    assert faces - todo == faces;
    PeelingDone(c, ls, s, t, s');
  }

  /**
   * The walk `crossing(n)` performs, on the complex and labels it reads:
   * peel label-connected regions off the tetrahedra around `n` one at a
   * time; true as soon as a third one would be needed.
   */
  method Crossed(c: Complex, ls: map<TetKey, int>, n: NodeKey) returns (r: bool)
    requires FacesTetsLinked(c) && Manifold(c) && c.tets.Keys <= ls.Keys
    ensures r <==> ThreeComponents(c, ls, StarOfNode(c, n).tets)
  {
    ghost var s0 := StarOfNode(c, n).tets;
    var s := StarOfNode(c, n).tets;
    var count := 0;
    ghost var reps: seq<TetKey> := [];
    StarTetsOfNodeLive(c, n);
    while |s| > 0
      invariant Separated(c, ls, s0, s, reps) && count == |reps| <= 2
      invariant s <= c.tets.Keys
      decreases |s|
    {
      if count == 2 {
        var t :| t in s;
        SeparatedThree(c, ls, s0, s, reps, t);
        return true;
      }
      var t :| t in s;
      var s' := Peel(c, ls, s, t);
      SeparatedShrinks(c, ls, s0, s, s', t, reps);
      s := s';
      reps := reps + [t];
      count := count + 1;
    }
    SeparatedDone(c, ls, s0, reps);
    return false;
  }
}
