/**
 * The greedy grouping behind `create_faces` and `create_tetrahedron`: keys
 * are taken one at a time and appended to a group when `is_neighbour(key,
 * group)` holds. A boundary map `bd` gives each key's boundary (an edge's
 * nodes, a face's edges), which is all the test reads.
 */
module Assembly {
  import opened Keys
  import opened Incidence
  import opened KeyVectors

  /** The boundary `is_neighbour` reads for an edge: its nodes. */
  function EdgeNodes(c: Complex): map<EdgeKey, seq<NodeKey>>
  {
    map e | e in c.edges :: c.edges[e].nodes
  }

  /** The boundary `is_neighbour` reads for a face: its edges. */
  function FaceEdges(c: Complex): map<FaceKey, seq<EdgeKey>>
  {
    map f | f in c.faces :: c.faces[f].edges
  }

  /** Every key of `ks` has a boundary in `bd`. */
  predicate Known<K(==), B(==)>(bd: map<K, seq<B>>, ks: seq<K>)
  {
    forall k :: k in ks ==> k in bd
  }

  predicate AllKnown<K(==), B(==)>(bd: map<K, seq<B>>, groups: seq<seq<K>>)
  {
    forall i :: 0 <= i < |groups| ==> Known(bd, groups[i])
  }

  function Boundaries<K(==), B(==)>(bd: map<K, seq<B>>, ks: seq<K>): (r: seq<seq<B>>)
    requires Known(bd, ks)
    ensures |r| == |ks|
  {
    seq(|ks|, i requires 0 <= i < |ks| => bd[ks[i]])
  }

  /** `is_neighbour(k, ks)`: as many positions of `k`'s boundary lie on the boundaries of `ks` as `ks` has keys. */
  predicate Touches<K(==), B(==)>(bd: map<K, seq<B>>, k: K, ks: seq<K>)
    requires k in bd && Known(bd, ks)
  {
    |SharedPositions(bd[k], Boundaries(bd, ks))| == |ks|
  }

  /** A group already holding more keys than `k`'s boundary has positions never takes `k`. */
  lemma FullGroupRefuses<K, B>(bd: map<K, seq<B>>, k: K, ks: seq<K>)
    requires k in bd && Known(bd, ks) && |ks| > |bd[k]|
    ensures !Touches(bd, k, ks)
  {
    SharedPositionsBound(bd[k], Boundaries(bd, ks));
  }

  // ---------------------------------------------------------------------------
  // create_faces: each exterior edge joins the first group it fits
  // ---------------------------------------------------------------------------

  /** The first group from index `j` on that `k` fits, or `|groups|` when there is none. */
  function FirstFit<K(==), B(==)>(bd: map<K, seq<B>>, k: K, groups: seq<seq<K>>, j: nat): (r: nat)
    requires k in bd && AllKnown(bd, groups) && j <= |groups|
    ensures j <= r <= |groups|
    ensures r < |groups| ==> Touches(bd, k, groups[r])
    ensures forall i :: j <= i < r ==> !Touches(bd, k, groups[i])
    decreases |groups| - j
  {
    if j == |groups| then j
    else if Touches(bd, k, groups[j]) then j
    else FirstFit(bd, k, groups, j + 1)
  }

  /** One pass of the inner loop of `create_faces`: append `k` to the first group it fits. */
  function Place<K(==), B(==)>(bd: map<K, seq<B>>, k: K, groups: seq<seq<K>>): (r: seq<seq<K>>)
    requires k in bd && AllKnown(bd, groups)
    ensures |r| == |groups| && AllKnown(bd, r)
  {
    var j := FirstFit(bd, k, groups, 0);
    if j < |groups| then groups[j := groups[j] + [k]] else groups
  }

  /** The groups after the keys of `ks` were placed, first to last. */
  function Distribute<K(==), B(==)>(bd: map<K, seq<B>>, ks: seq<K>, groups: seq<seq<K>>): (r: seq<seq<K>>)
    requires Known(bd, ks) && AllKnown(bd, groups)
    ensures |r| == |groups| && AllKnown(bd, r)
    decreases |ks|
  {
    if ks == [] then groups
    else Place(bd, ks[|ks| - 1], Distribute(bd, ks[..|ks| - 1], groups))
  }

  /** `n` copies of `x`. */
  function Repeat<T>(x: T, n: nat): (r: seq<T>)
    ensures |r| == n && forall i :: 0 <= i < n ==> r[i] == x
  {
    seq(n, _ => x)
  }

  /** What the groups gained after their first key, concatenated. */
  function Tails<K>(groups: seq<seq<K>>): seq<K>
  {
    if groups == [] then [] else (if groups[0] == [] then [] else groups[0][1..]) + Tails(groups[1..])
  }

  lemma {:induction false} TailsAppend<K>(groups: seq<seq<K>>, j: nat, k: K)
    requires j < |groups| && groups[j] != []
    ensures multiset(Tails(groups[j := groups[j] + [k]])) == multiset(Tails(groups)) + multiset{k}
  {
    var g := groups[j := groups[j] + [k]];
    if j == 0 {
      assert g[1..] == groups[1..];
      assert (groups[0] + [k])[1..] == groups[0][1..] + [k];
    } else {
      assert g[1..] == groups[1..][j - 1 := groups[j] + [k]];
      TailsAppend(groups[1..], j - 1, k);
    }
  }

  /** Placing a key adds it to at most one group. */
  lemma PlaceTails<K, B>(bd: map<K, seq<B>>, k: K, groups: seq<seq<K>>)
    requires k in bd && AllKnown(bd, groups) && forall i :: 0 <= i < |groups| ==> groups[i] != []
    ensures multiset(Tails(Place(bd, k, groups))) <= multiset(Tails(groups)) + multiset{k}
  {
    var j := FirstFit(bd, k, groups, 0);
    if j < |groups| {
      TailsAppend(groups, j, k);
    }
  }

  /** Placing never changes a group's first key, and never empties a group. */
  lemma PlaceKeepsFirst<K, B>(bd: map<K, seq<B>>, k: K, groups: seq<seq<K>>)
    requires k in bd && AllKnown(bd, groups) && forall i :: 0 <= i < |groups| ==> groups[i] != []
    ensures forall i :: 0 <= i < |groups| ==>
      Place(bd, k, groups)[i] != [] && Place(bd, k, groups)[i][0] == groups[i][0]
  {
  }

  /**
   * After distributing `ks`, every group still starts with its first key,
   * and every key of `ks` went into at most one group.
   */
  lemma {:induction false} DistributeTails<K, B>(bd: map<K, seq<B>>, ks: seq<K>, groups: seq<seq<K>>)
    requires Known(bd, ks) && AllKnown(bd, groups) && forall i :: 0 <= i < |groups| ==> groups[i] != []
    ensures var r := Distribute(bd, ks, groups);
      (forall i :: 0 <= i < |groups| ==> r[i] != [] && r[i][0] == groups[i][0]) &&
      multiset(Tails(r)) <= multiset(Tails(groups)) + multiset(ks)
    decreases |ks|
  {
    if ks != [] {
      var front := ks[..|ks| - 1];
      var k := ks[|ks| - 1];
      DistributeTails(bd, front, groups);
      var r := Distribute(bd, front, groups);
      PlaceKeepsFirst(bd, k, r);
      PlaceTails(bd, k, r);
      assert ks == front + [k];
    }
  }

  lemma {:induction false} SeedsHaveNoTails<K>(first: K, n: nat)
    ensures Tails(Repeat([first], n)) == []
    decreases n
  {
    if n > 0 {
      assert Repeat([first], n)[1..] == Repeat([first], n - 1);
      SeedsHaveNoTails(first, n - 1);
    }
  }

  /** A group of two-key boundaries grows to at most three keys: one key and two that fit it. */
  lemma {:induction false} DistributeAtMostThree<K, B>(bd: map<K, seq<B>>, ks: seq<K>, groups: seq<seq<K>>)
    requires Known(bd, ks) && AllKnown(bd, groups)
    requires forall k :: k in ks ==> |bd[k]| == 2
    requires forall i :: 0 <= i < |groups| ==> |groups[i]| <= 3
    ensures forall i :: 0 <= i < |groups| ==> |Distribute(bd, ks, groups)[i]| <= 3
    decreases |ks|
  {
    if ks != [] {
      var front := ks[..|ks| - 1];
      var k := ks[|ks| - 1];
      DistributeAtMostThree(bd, front, groups);
      var r := Distribute(bd, front, groups);
      var j := FirstFit(bd, k, r, 0);
      if j < |r| && |r[j]| == 3 {
        FullGroupRefuses(bd, k, r[j]);
      }
    }
  }

  /** The inner loop of `create_faces`: `e` joins the first group it touches at every edge, if any. */
  method PlaceEdge(bd: map<EdgeKey, seq<NodeKey>>, e: EdgeKey, groups: seq<seq<EdgeKey>>) returns (r: seq<seq<EdgeKey>>)
    requires e in bd && AllKnown(bd, groups)
    ensures r == Place(bd, e, groups)
  {
    var j := 0;
    while j < |groups|
      invariant j <= |groups| && forall k :: 0 <= k < j ==> !Touches(bd, e, groups[k])
    {
      var touches := IsNeighbourOfAll(bd[e], Boundaries(bd, groups[j]));
      if touches {
        break;
      }
      j := j + 1;
    }
    r := if j < |groups| then groups[j := groups[j] + [e]] else groups;
  }

  /**
   * The edge triples `create_faces(interior, exterior)` hands to the
   * kernel's `insert_face`: one group per three exterior edges, each
   * starting with `interior`, every exterior edge joining the first group it
   * touches at every edge; it fails unless each group ends with three edges.
   */
  method FaceEdgeGroups(c: Complex, interior: EdgeKey, exterior: seq<EdgeKey>) returns (r: Result<seq<seq<EdgeKey>>>)
    requires interior in c.edges && forall e :: e in exterior ==> e in c.edges
    ensures |exterior| % 3 != 0 ==> r.Failure?
    ensures var groups := Distribute(EdgeNodes(c), exterior, Repeat([interior], |exterior| / 3));
      (r.Success? <==> |exterior| % 3 == 0 && forall i :: 0 <= i < |groups| ==> |groups[i]| == 3) &&
      (r.Success? ==> r.value == groups)
    ensures r.Success? ==> (|r.value| == |exterior| / 3 &&
      (forall i :: 0 <= i < |r.value| ==> |r.value[i]| == 3 && r.value[i][0] == interior) &&
      multiset(Tails(r.value)) <= multiset(exterior))
  {
    if |exterior| % 3 != 0 {
      return Failure("create_faces: the exterior edges do not come in threes");
    }
    var bd := EdgeNodes(c);
    var seeds := Repeat([interior], |exterior| / 3);
    var groups := seeds;
    for i := 0 to |exterior|
      invariant groups == Distribute(bd, exterior[..i], seeds)
    {
      assert exterior[..i + 1][..i] == exterior[..i];
      groups := PlaceEdge(bd, exterior[i], groups);
    }
    assert exterior[..|exterior|] == exterior;
    for i := 0 to |groups|
      invariant forall k :: 0 <= k < i ==> |groups[k]| == 3
    {
      if |groups[i]| != 3 {
        return Failure("create_faces: a face did not get three edges");
      }
    }
    DistributeTails(bd, exterior, seeds);
    SeedsHaveNoTails(interior, |seeds|);
    r := Success(groups);
  }

  // ---------------------------------------------------------------------------
  // create_tetrahedron: gather interior faces, then sweep the exterior pool
  // ---------------------------------------------------------------------------

  /** The interior pass: each key of `ks` not yet in `acc` that fits it is appended. */
  function Gather<K(==), B(==)>(bd: map<K, seq<B>>, ks: seq<K>, acc: seq<K>): (r: seq<K>)
    requires Known(bd, ks) && Known(bd, acc)
    ensures Known(bd, r) && |acc| <= |r| && r[..|acc|] == acc
    decreases |ks|
  {
    if ks == [] then acc
    else Gather(bd, ks[1..], if ks[0] !in acc && Touches(bd, ks[0], acc) then acc + [ks[0]] else acc)
  }

  /**
   * The exterior pass: each key of the pool that fits the faces gathered so
   * far moves from the pool to them. The result is (pool left, faces).
   */
  function Sweep<K(==), B(==)>(bd: map<K, seq<B>>, pool: seq<K>, acc: seq<K>): (r: (seq<K>, seq<K>))
    requires Known(bd, pool) && Known(bd, acc)
    ensures Known(bd, r.0) && Known(bd, r.1)
    decreases |pool|
  {
    if pool == [] then ([], acc)
    else if Touches(bd, pool[0], acc) then Sweep(bd, pool[1..], acc + [pool[0]])
    else var r := Sweep(bd, pool[1..], acc); ([pool[0]] + r.0, r.1)
  }

  /** Every pool key either stays in the pool or joins the faces, and none is made up. */
  lemma {:induction false} SweepConserves<K, B>(bd: map<K, seq<B>>, pool: seq<K>, acc: seq<K>)
    requires Known(bd, pool) && Known(bd, acc)
    ensures var r := Sweep(bd, pool, acc);
      multiset(r.0) + multiset(r.1) == multiset(pool) + multiset(acc) &&
      multiset(r.0) <= multiset(pool) && |acc| <= |r.1| && r.1[..|acc|] == acc
    decreases |pool|
  {
    if pool != [] {
      assert pool == [pool[0]] + pool[1..];
      if Touches(bd, pool[0], acc) {
        SweepConserves(bd, pool[1..], acc + [pool[0]]);
        var r := Sweep(bd, pool[1..], acc + [pool[0]]);
        assert r.1[..|acc|] == (r.1[..|acc| + 1])[..|acc|];
      } else {
        SweepConserves(bd, pool[1..], acc);
        var r := Sweep(bd, pool[1..], acc);
        assert Sweep(bd, pool, acc) == ([pool[0]] + r.0, r.1);
        calc {
          multiset([pool[0]] + r.0) + multiset(r.1);
          multiset{pool[0]} + (multiset(r.0) + multiset(r.1));
          multiset{pool[0]} + (multiset(pool[1..]) + multiset(acc));
          multiset(pool) + multiset(acc);
        }
      }
    }
  }

  /** The faces `create_tetrahedron` finds start with the last pool face. */
  lemma TetFacesStart<K, B>(bd: map<K, seq<B>>, interior: seq<K>, pool: seq<K>)
    requires Known(bd, interior) && Known(bd, pool) && pool != []
    ensures var r := Sweep(bd, pool[..|pool| - 1], Gather(bd, interior, [pool[|pool| - 1]]));
      r.1 != [] && r.1[0] == pool[|pool| - 1]
  {
    var g := Gather(bd, interior, [pool[|pool| - 1]]);
    SweepConserves(bd, pool[..|pool| - 1], g);
    var r := Sweep(bd, pool[..|pool| - 1], g);
    assert r.1[..|g|][0] == g[0];
  }

  /**
   * Every pool face is either left in the pool or among the faces
   * `create_tetrahedron` finds, and every one of those came from the pool or
   * the interior faces, each at most once.
   */
  lemma TetFacesAccount<K, B>(bd: map<K, seq<B>>, interior: seq<K>, pool: seq<K>)
    requires Known(bd, interior) && Known(bd, pool) && pool != []
    ensures var r := Sweep(bd, pool[..|pool| - 1], Gather(bd, interior, [pool[|pool| - 1]]));
      multiset(r.0) <= multiset(pool) &&
      multiset(pool) <= multiset(r.0) + multiset(r.1) <= multiset(pool) + multiset(interior)
  {
    var last := pool[|pool| - 1];
    var front := pool[..|pool| - 1];
    var g := Gather(bd, interior, [last]);
    MultisetOfLast(pool);
    var r := Sweep(bd, front, g);
    SweepConserves(bd, front, g);
    GatherTakes(bd, interior, [last]);
    assert g[0] == last;
    Rebalance(multiset(r.0), multiset(r.1), multiset(front), multiset(g), last, multiset(interior), multiset(pool));
  }

  lemma MultisetOfLast<K>(s: seq<K>)
    requires s != []
    ensures multiset(s) == multiset(s[..|s| - 1]) + multiset{s[|s| - 1]}
  {
    assert s == s[..|s| - 1] + [s[|s| - 1]];
  }

  /** The multiset arithmetic behind `TetFacesAccount`. */
  lemma Rebalance<K>(left: multiset<K>, taken: multiset<K>, front: multiset<K>, gathered: multiset<K>,
                     last: K, interior: multiset<K>, whole: multiset<K>)
    requires left + taken == front + gathered && left <= front
    requires last in gathered && gathered <= multiset{last} + interior
    requires whole == front + multiset{last}
    ensures left <= whole
    ensures whole <= left + taken <= whole + interior
  {
  }

  /** The sweep only ever removes keys from the pool. */
  lemma {:induction false} SweepShrinks<K, B>(bd: map<K, seq<B>>, pool: seq<K>, acc: seq<K>)
    requires Known(bd, pool) && Known(bd, acc)
    ensures |Sweep(bd, pool, acc).0| + |Sweep(bd, pool, acc).1| == |pool| + |acc|
  {
    SweepConserves(bd, pool, acc);
    var r := Sweep(bd, pool, acc);
    assert |multiset(r.0) + multiset(r.1)| == |multiset(pool) + multiset(acc)|;
  }

  /** The interior loop of `create_tetrahedron`. */
  method GatherKeys<K(==), B(==)>(bd: map<K, seq<B>>, ks: seq<K>, acc: seq<K>) returns (r: seq<K>)
    requires Known(bd, ks) && Known(bd, acc)
    ensures r == Gather(bd, ks, acc)
  {
    r := acc;
    for i := 0 to |ks|
      invariant Known(bd, r) && Gather(bd, ks[i..], r) == Gather(bd, ks, acc)
    {
      var k := ks[i];
      assert ks[i..][1..] == ks[i + 1..];
      if k !in r {
        var touches := IsNeighbourOfAll(bd[k], Boundaries(bd, r));
        if touches {
          r := r + [k];
        }
      }
    }
    assert ks[|ks|..] == [];
  }

  /**
   * The exterior loop of `create_tetrahedron`, erasing from the pool in
   * place: a key that touches all of `r` moves from the pool to the end of
   * `r` and the cursor stays where it is; any other key is stepped over.
   */
  method SweepKeys<K(==), B(==)>(bd: map<K, seq<B>>, pool: seq<K>, acc: seq<K>) returns (rest: seq<K>, r: seq<K>)
    requires Known(bd, pool) && Known(bd, acc)
    ensures rest == Sweep(bd, pool, acc).0 && r == Sweep(bd, pool, acc).1
  {
    rest, r := pool, acc;
    var i := 0;
    assert rest[..0] == [] && rest[0..] == rest;
    while i < |rest|
      invariant i <= |rest| && Known(bd, rest) && Known(bd, r)
      invariant rest[..i] + Sweep(bd, rest[i..], r).0 == Sweep(bd, pool, acc).0
      invariant Sweep(bd, rest[i..], r).1 == Sweep(bd, pool, acc).1
      decreases |rest| - i
    {
      assert rest[i..][1..] == rest[i + 1..];
      var touches := IsNeighbourOfAll(bd[rest[i]], Boundaries(bd, r));
      if touches {
        r := r + [rest[i]];
        assert (rest[..i] + rest[i + 1..])[i..] == rest[i + 1..];
        rest := rest[..i] + rest[i + 1..];
      } else {
        assert rest[..i + 1] == rest[..i] + [rest[i]];
        i := i + 1;
      }
    }
    assert rest[..i] == rest && rest[i..] == [];
    assert Sweep(bd, rest[i..], r) == ([], r);
  }

  /** The interior pass takes each key at most once, and only keys it was given. */
  lemma {:induction false} GatherTakes<K, B>(bd: map<K, seq<B>>, ks: seq<K>, acc: seq<K>)
    requires Known(bd, ks) && Known(bd, acc)
    ensures multiset(Gather(bd, ks, acc)) <= multiset(acc) + multiset(ks)
    decreases |ks|
  {
    if ks != [] {
      assert ks == [ks[0]] + ks[1..];
      var acc' := if ks[0] !in acc && Touches(bd, ks[0], acc) then acc + [ks[0]] else acc;
      GatherTakes(bd, ks[1..], acc');
    }
  }

  /**
   * The faces `create_tetrahedron` gives a new tetrahedron: the last face of
   * the pool, then each interior face that touches all faces so far, then
   * each pool face that does, taken out of the pool. Also the pool left.
   */
  method TetFaces(c: Complex, interior: seq<FaceKey>, pool: seq<FaceKey>) returns (r: Result<seq<FaceKey>>, rest: seq<FaceKey>)
    requires forall f :: f in interior ==> f in c.faces
    requires forall f :: f in pool ==> f in c.faces
    ensures pool == [] ==> r.Failure? && rest == pool
    ensures pool != [] ==>
      var swept := Sweep(FaceEdges(c), pool[..|pool| - 1], Gather(FaceEdges(c), interior, [pool[|pool| - 1]]));
      rest == swept.0 && (r.Success? <==> |swept.1| == 4) && (r.Success? ==> r.value == swept.1)
    ensures r.Success? ==> (|r.value| == 4 && r.value[0] == pool[|pool| - 1] &&
      multiset(pool) <= multiset(rest) + multiset(r.value) <= multiset(pool) + multiset(interior))
    ensures multiset(rest) <= multiset(pool)
    ensures r.Success? ==> forall f :: f in r.value ==> f in c.faces
  {
    if pool == [] {
      return Failure("create_tetrahedron: no exterior face left"), pool;
    }
    var bd := FaceEdges(c);
    var tf := GatherKeys(bd, interior, [pool[|pool| - 1]]);
    rest, tf := SweepKeys(bd, pool[..|pool| - 1], tf);
    TetFacesStart(bd, interior, pool);
    TetFacesAccount(bd, interior, pool);
    if |tf| != 4 {
      return Failure("create_tetrahedron: the faces found do not close a tetrahedron"), rest;
    }
    r := Success(tf);
  }
  // ---------------------------------------------------------------------------
  // insert_tetrahedron
  // ---------------------------------------------------------------------------

  /** `add_co_face` on face `f`: `t` joins the end of its co-boundary. */
  function AddCoTet(c: Complex, f: FaceKey, t: TetKey): Complex
    requires f in c.faces
  {
    c.(faces := c.faces[f := c.faces[f].(coTets := c.faces[f].coTets + [t])])
  }

  /** `add_co_face` on each face of `fs` in turn. */
  function AddCoTets(c: Complex, fs: seq<FaceKey>, t: TetKey): (r: Complex)
    requires forall f :: f in fs ==> f in c.faces
    ensures r.nodes == c.nodes && r.edges == c.edges && r.tets == c.tets && r.faces.Keys == c.faces.Keys
    decreases |fs|
  {
    if fs == [] then c else AddCoTets(AddCoTet(c, fs[0], t), fs[1..], t)
  }

  /**
   * The complex after `insert_tetrahedron(fs[0], ..., fs[3])` created `t`:
   * each face has `t` appended to its co-boundary, once per time it was
   * passed, and the tetrahedron has the faces in the order given.
   */
  function WithTet(c: Complex, t: TetKey, fs: seq<FaceKey>): Complex
    requires forall f :: f in fs ==> f in c.faces
  {
    AddCoTets(c, fs, t).(tets := c.tets[t := TetCell(fs)])
  }

  /** Appending co-faces leaves every face's edges, and adds `t` to exactly the faces passed. */
  lemma {:induction false} AddCoTetsFace(c: Complex, fs: seq<FaceKey>, t: TetKey, f: FaceKey)
    requires (forall g :: g in fs ==> g in c.faces) && f in c.faces
    ensures var r := AddCoTets(c, fs, t);
      r.faces[f].edges == c.faces[f].edges &&
      forall u :: u in r.faces[f].coTets <==> u in c.faces[f].coTets || (u == t && f in fs)
    decreases |fs|
  {
    if fs != [] {
      var c1 := AddCoTet(c, fs[0], t);
      AddCoTetsFace(c1, fs[1..], t, f);
      assert forall g :: g in fs <==> g == fs[0] || g in fs[1..];
    }
  }

  /** What inserting a tetrahedron does to one face: its edges stay, and `t` joins its co-boundary when it was passed. */
  lemma WithTetFace(c: Complex, t: TetKey, fs: seq<FaceKey>, f: FaceKey)
    requires (forall g :: g in fs ==> g in c.faces) && f in c.faces
    ensures var c' := WithTet(c, t, fs);
      f in c'.faces && c'.faces[f].edges == c.faces[f].edges &&
      forall u :: u in c'.faces[f].coTets <==> u in c.faces[f].coTets || (u == t && f in fs)
  {
    AddCoTetsFace(c, fs, t, f);
  }

  /** Inserting a tetrahedron leaves the nodes, the edges and every face's edges as they were. */
  lemma WithTetLower(c: Complex, t: TetKey, fs: seq<FaceKey>)
    requires NodesEdgesLinked(c) && EdgesFacesLinked(c) && forall f :: f in fs ==> f in c.faces
    ensures NodesEdgesLinked(WithTet(c, t, fs)) && EdgesFacesLinked(WithTet(c, t, fs))
  {
    var c' := WithTet(c, t, fs);
    forall f | f in c.faces
      ensures f in c'.faces && c'.faces[f].edges == c.faces[f].edges
    {
      WithTetFace(c, t, fs, f);
    }
    SameSkeletonLinked(c, c');
  }

  /** The node/edge and edge/face links read only the nodes, the edges and each face's edges. */
  lemma SameSkeletonLinked(c: Complex, c': Complex)
    requires NodesEdgesLinked(c) && EdgesFacesLinked(c)
    requires c'.nodes == c.nodes && c'.edges == c.edges && c'.faces.Keys == c.faces.Keys
    requires forall f :: f in c.faces ==> c'.faces[f].edges == c.faces[f].edges
    ensures NodesEdgesLinked(c') && EdgesFacesLinked(c')
  {
    assert NodesEdgesLinked(c') by {
      assert c'.nodes == c.nodes && c'.edges == c.edges;
    }
    SameFaceEdgesLinked(c, c');
  }

  lemma SameFaceEdgesLinked(c: Complex, c': Complex)
    requires EdgesFacesLinked(c)
    requires c'.edges == c.edges && c'.faces.Keys == c.faces.Keys
    requires forall f :: f in c.faces ==> c'.faces[f].edges == c.faces[f].edges
    ensures EdgesFacesLinked(c')
  {
    forall e, f | e in c'.edges && f in c'.edges[e].coFaces
      ensures f in c'.faces && e in c'.faces[f].edges
    {
      assert f in c.faces && e in c.faces[f].edges;
    }
    forall f, e | f in c'.faces && e in c'.faces[f].edges
      ensures e in c'.edges && f in c'.edges[e].coFaces
    {
      assert e in c.faces[f].edges;
    }
  }

  /** A fresh tetrahedron on live faces: every face/tetrahedron link stays two-way. */
  lemma WithTetUpper(c: Complex, t: TetKey, fs: seq<FaceKey>)
    requires FacesTetsLinked(c) && t !in c.tets && forall f :: f in fs ==> f in c.faces
    ensures FacesTetsLinked(WithTet(c, t, fs))
  {
    var c' := WithTet(c, t, fs);
    forall f, u | f in c'.faces && u in c'.faces[f].coTets
      ensures u in c'.tets && f in c'.tets[u].faces
    {
      WithTetFace(c, t, fs, f);
    }
    forall u, f | u in c'.tets && f in c'.tets[u].faces
      ensures f in c'.faces && u in c'.faces[f].coTets
    {
      WithTetFace(c, t, fs, f);
    }
  }

  /** Inserting a tetrahedron with a fresh key on live faces keeps every link two-way. */
  lemma WithTetLinked(c: Complex, t: TetKey, fs: seq<FaceKey>)
    requires Linked(c) && t !in c.tets && forall f :: f in fs ==> f in c.faces
    ensures var c' := WithTet(c, t, fs);
      Linked(c') && c'.nodes == c.nodes && c'.edges == c.edges &&
      c'.tets.Keys == c.tets.Keys + {t} && c'.faces.Keys == c.faces.Keys &&
      (forall u :: u in c.tets ==> c'.tets[u] == c.tets[u]) &&
      (forall f :: f in c.faces ==> (t in c'.faces[f].coTets <==> f in fs))
  {
    WithTetLower(c, t, fs);
    WithTetUpper(c, t, fs);
    forall f | f in c.faces
      ensures t in WithTet(c, t, fs).faces[f].coTets <==> f in fs
    {
      WithTetFace(c, t, fs, f);
    }
  }

  /** A key not in `ks`: the slot the kernel's `create()` hands out is one nobody holds. */
  method NewKey(ks: set<nat>) returns (k: nat)
    ensures k !in ks
  {
    k := 0;
    var rest := ks;
    while rest != {}
      invariant rest <= ks && forall x :: x in ks - rest ==> x < k
      decreases |rest|
    {
      var x :| x in rest;
      if x >= k {
        k := x + 1;
      }
      DoneStep(ks, rest, x);
      rest := rest - {x};
    }
    assert ks - rest == ks;
  }

  /** `insert_tetrahedron` on the complex: a fresh key, and the complex with the tetrahedron on `fs`. */
  method InsertTet(c: Complex, fs: seq<FaceKey>) returns (t: TetKey, c': Complex)
    requires Linked(c) && forall f :: f in fs ==> f in c.faces
    ensures t !in c.tets && c' == WithTet(c, t, fs)
    ensures Linked(c') && c'.nodes == c.nodes && c'.edges == c.edges &&
      c'.tets.Keys == c.tets.Keys + {t} && c'.faces.Keys == c.faces.Keys
  {
    t := NewKey(c.tets.Keys);
    WithTetLinked(c, t, fs);
    c' := WithTet(c, t, fs);
  }

  /** A tetrahedron inserted with an attribute keeps every live simplex attributed. */
  lemma InsertKeepsAttributed<L, F, E, N>(c: Complex, c': Complex, t: TetKey, labels: map<TetKey, L>, l: L,
                                          faceAttrs: map<FaceKey, F>, edgeAttrs: map<EdgeKey, E>, nodeAttrs: map<NodeKey, N>)
    requires Attributed(c, labels, faceAttrs, edgeAttrs, nodeAttrs)
    requires Linked(c') && c'.nodes == c.nodes && c'.edges == c.edges &&
      c'.tets.Keys == c.tets.Keys + {t} && c'.faces.Keys == c.faces.Keys
    ensures Attributed(c', labels[t := l], faceAttrs, edgeAttrs, nodeAttrs)
  {
  }

  /** Tetrahedra added with attributes, on the same nodes, edges and faces, keep every live simplex attributed. */
  lemma GrowKeepsAttributed<F, E, N>(c: Complex, c': Complex, labels: map<TetKey, int>, labels': map<TetKey, int>,
                                     faceAttrs: map<FaceKey, F>, edgeAttrs: map<EdgeKey, E>, nodeAttrs: map<NodeKey, N>)
    requires Attributed(c, labels, faceAttrs, edgeAttrs, nodeAttrs)
    requires Reshaped(c, c', labels')
    ensures Attributed(c', labels', faceAttrs, edgeAttrs, nodeAttrs)
  {
  }

  /**
   * `c'` and `rest` are what `create_tetrahedron(interior, pool)` leaves on
   * `c`: the pool after the sweep, and, when the faces found are four, the
   * complex with a tetrahedron under the fresh key `r.value` on them.
   */
  ghost predicate Created(c: Complex, interior: seq<FaceKey>, pool: seq<FaceKey>,
                          r: Result<TetKey>, rest: seq<FaceKey>, c': Complex)
    requires (forall f :: f in interior ==> f in c.faces) && (forall f :: f in pool ==> f in c.faces)
  {
    var bd := FaceEdges(c);
    if pool == [] then r.Failure? && rest == pool && c' == c
    else
      var swept := Sweep(bd, pool[..|pool| - 1], Gather(bd, interior, [pool[|pool| - 1]]));
      rest == swept.0 && (r.Success? <==> |swept.1| == 4) &&
      (r.Success? ==> r.value !in c.tets && c' == WithTet(c, r.value, swept.1)) &&
      (r.Failure? ==> c' == c)
  }

  /**
   * The tetrahedron `create_tetrahedron` makes has four faces, the first
   * being the last pool face; every face it took left the pool, and every
   * one it has came from the pool or the interior faces.
   */
  lemma CreatedTet(c: Complex, interior: seq<FaceKey>, pool: seq<FaceKey>,
                   r: Result<TetKey>, rest: seq<FaceKey>, c': Complex)
    requires (forall f :: f in interior ==> f in c.faces) && (forall f :: f in pool ==> f in c.faces)
    requires Created(c, interior, pool, r, rest, c') && r.Success?
    ensures r.value !in c.tets && r.value in c'.tets && c'.tets == c.tets[r.value := c'.tets[r.value]] &&
      c'.faces.Keys == c.faces.Keys
    ensures |c'.tets[r.value].faces| == 4 && c'.tets[r.value].faces[0] == pool[|pool| - 1]
    ensures multiset(pool) <= multiset(rest) + multiset(c'.tets[r.value].faces) <= multiset(pool) + multiset(interior)
  {
    var bd := FaceEdges(c);
    TetFacesStart(bd, interior, pool);
    TetFacesAccount(bd, interior, pool);
  }

  /**
   * `create_tetrahedron(interior, pool)` on the complex: the faces
   * `TetFaces` finds, then `insert_tetrahedron` on them.
   */
  method CreateTet(c: Complex, interior: seq<FaceKey>, pool: seq<FaceKey>)
    returns (r: Result<TetKey>, rest: seq<FaceKey>, c': Complex)
    requires Linked(c) && (forall f :: f in interior ==> f in c.faces) && (forall f :: f in pool ==> f in c.faces)
    ensures Created(c, interior, pool, r, rest, c') && multiset(rest) <= multiset(pool)
    ensures Linked(c') && c'.nodes == c.nodes && c'.edges == c.edges && c'.faces.Keys == c.faces.Keys
    ensures c'.tets.Keys == c.tets.Keys + (if r.Success? then {r.value} else {})
  {
    var tf;
    tf, rest := TetFaces(c, interior, pool);
    if tf.Failure? {
      return Failure(tf.error), rest, c;
    }
    var t;
    t, c' := InsertTet(c, tf.value);
    r := Success(t);
  }

  /** The faces of the tetrahedra `ts`. */
  ghost function FacesOf(c: Complex, ts: seq<TetKey>): set<FaceKey>
    requires forall t :: t in ts ==> t in c.tets
  {
    set t, f | t in ts && f in c.tets[t].faces :: f
  }

  /** A tetrahedron added to `ts` adds its faces, when the others are left as they were. */
  lemma FacesOfStep(c: Complex, c': Complex, ts: seq<TetKey>, t: TetKey)
    requires forall u :: u in ts ==> u in c.tets && u in c'.tets && c'.tets[u] == c.tets[u]
    requires t in c'.tets
    ensures FacesOf(c', ts + [t]) == FacesOf(c, ts) + set f | f in c'.tets[t].faces
  {
    assert forall u :: u in ts + [t] <==> u in ts || u == t;
  }

  /**
   * `c` and `labels` are `c0` and `labels0` with the tetrahedra `ts` added by
   * `create_tetrahedron`: distinct fresh keys, label 0, four faces each,
   * every other tetrahedron and face left in place.
   */
  ghost predicate Grown(c0: Complex, labels0: map<TetKey, int>, c: Complex, labels: map<TetKey, int>, ts: seq<TetKey>)
  {
    (forall i, j :: 0 <= i < j < |ts| ==> ts[i] != ts[j]) &&
    (forall t :: t in ts ==> t in c.tets && t !in c0.tets && t in labels && labels[t] == 0 && |c.tets[t].faces| == 4) &&
    (forall u :: u in c0.tets ==> u in c.tets && c.tets[u] == c0.tets[u]) &&
    (forall u :: u in labels0 ==> u in labels && labels[u] == labels0[u]) &&
    c.tets.Keys == c0.tets.Keys + (set t | t in ts) && c.faces.Keys == c0.faces.Keys
  }

  lemma GrownNone(c0: Complex, labels0: map<TetKey, int>)
    ensures Grown(c0, labels0, c0, labels0, [])
  {
  }

  /** One more tetrahedron on four faces under a fresh key keeps the growth bookkeeping. */
  lemma GrownStep(c0: Complex, labels0: map<TetKey, int>, c: Complex, labels: map<TetKey, int>, ts: seq<TetKey>,
                  c': Complex, t: TetKey)
    requires Grown(c0, labels0, c, labels, ts) && labels0.Keys <= c0.tets.Keys
    requires t !in c.tets && t in c'.tets && |c'.tets[t].faces| == 4
    requires c'.tets == c.tets[t := c'.tets[t]] && c'.faces.Keys == c.faces.Keys
    ensures Grown(c0, labels0, c', labels[t := 0], ts + [t])
  {
    assert forall u :: u in ts + [t] <==> u in ts || u == t;
  }

  /** Every key of `ks` is still in the pool or a face of one of the tetrahedra `ts`. */
  ghost predicate Covered(c: Complex, ts: seq<TetKey>, pool: seq<FaceKey>, ks: seq<FaceKey>)
    requires forall t :: t in ts ==> t in c.tets
  {
    forall f :: f in ks ==> f in pool || f in FacesOf(c, ts)
  }

  /** A tetrahedron that takes faces out of the pool keeps them covered. */
  lemma CoveredStep(c: Complex, ts: seq<TetKey>, pool: seq<FaceKey>, ks: seq<FaceKey>,
                    c': Complex, t: TetKey, rest: seq<FaceKey>)
    requires forall u :: u in ts ==> u in c.tets && u in c'.tets && c'.tets[u] == c.tets[u]
    requires t in c'.tets && Covered(c, ts, pool, ks)
    requires multiset(pool) <= multiset(rest) + multiset(c'.tets[t].faces)
    ensures Covered(c', ts + [t], rest, ks)
  {
    FacesOfStep(c, c', ts, t);
    forall f | f in ks && f in pool
      ensures f in rest || f in c'.tets[t].faces
    {
      assert f in multiset(rest) + multiset(c'.tets[t].faces);
    }
  }

  /** `c'` keeps the nodes, edges and faces of `c`, with every link two-way and a label per tetrahedron. */
  ghost predicate Reshaped(c: Complex, c': Complex, labels': map<TetKey, int>)
  {
    Linked(c') && c'.nodes == c.nodes && c'.edges == c.edges && c'.faces.Keys == c.faces.Keys &&
    labels'.Keys == c'.tets.Keys
  }

  /** The state of the `create_tetrahedra` loop after it made the tetrahedra `ts`, leaving `pool`. */
  ghost predicate Building(c: Complex, labels: map<TetKey, int>, c': Complex, labels': map<TetKey, int>,
                           ts: seq<TetKey>, pool: seq<FaceKey>, exterior: seq<FaceKey>)
  {
    Reshaped(c, c', labels') && Grown(c, labels, c', labels', ts) && Covered(c', ts, pool, exterior) &&
    forall f :: f in pool ==> f in c.faces
  }

  lemma BuildingNone(c: Complex, labels: map<TetKey, int>, exterior: seq<FaceKey>)
    requires Linked(c) && labels.Keys == c.tets.Keys && forall f :: f in exterior ==> f in c.faces
    ensures Building(c, labels, c, labels, [], exterior, exterior)
  {
    GrownNone(c, labels);
  }

  /** One more tetrahedron made from the pool, on four faces under a fresh key, keeps the loop state. */
  lemma BuildingStep(c: Complex, labels: map<TetKey, int>, c': Complex, labels': map<TetKey, int>,
                     ts: seq<TetKey>, pool: seq<FaceKey>, exterior: seq<FaceKey>, t: TetKey, rest: seq<FaceKey>, c1: Complex)
    requires labels.Keys == c.tets.Keys && Building(c, labels, c', labels', ts, pool, exterior)
    requires t !in c'.tets && t in c1.tets && c1.tets == c'.tets[t := c1.tets[t]] && |c1.tets[t].faces| == 4
    requires multiset(pool) <= multiset(rest) + multiset(c1.tets[t].faces) && multiset(rest) <= multiset(pool)
    requires Linked(c1) && c1.nodes == c'.nodes && c1.edges == c'.edges && c1.faces.Keys == c'.faces.Keys
    ensures Building(c, labels, c1, labels'[t := 0], ts + [t], rest, exterior)
  {
    GrownStep(c, labels, c', labels', ts, c1, t);
    CoveredStep(c', ts, pool, exterior, c1, t, rest);
    forall f | f in rest
      ensures f in c.faces
    {
      assert f in multiset(pool);
    }
  }

  /**
   * `create_tetrahedra(interior, exterior)` on the complex and the labels:
   * `(2 * |interior| + |exterior|) / 4` calls of `create_tetrahedron` on a
   * copy of the exterior faces, which they must use up.
   */
  method CreateTets(c: Complex, labels: map<TetKey, int>, interior: seq<FaceKey>, exterior: seq<FaceKey>)
    returns (r: Result<seq<TetKey>>, c': Complex, labels': map<TetKey, int>)
    requires Linked(c) && labels.Keys == c.tets.Keys
    requires (forall f :: f in interior ==> f in c.faces) && (forall f :: f in exterior ==> f in c.faces)
    ensures Reshaped(c, c', labels')
    ensures (2 * |interior| + |exterior|) % 4 != 0 ==> r.Failure? && c' == c && labels' == labels
    ensures r.Success? ==> (|r.value| == (2 * |interior| + |exterior|) / 4 &&
      Grown(c, labels, c', labels', r.value) &&
      forall f :: f in exterior ==> f in FacesOf(c', r.value))
  {
    if (2 * |interior| + |exterior|) % 4 != 0 {
      return Failure("create_tetrahedra: the faces do not close whole tetrahedra"), c, labels;
    }
    c', labels' := c, labels;
    var pool := exterior;
    var ts := [];
    BuildingNone(c, labels, exterior);
    for i := 0 to (2 * |interior| + |exterior|) / 4
      invariant |ts| == i && Building(c, labels, c', labels', ts, pool, exterior)
    {
      var t, rest, c1 := CreateTet(c', interior, pool);
      if t.Failure? {
        return Failure(t.error), c', labels';
      }
      CreatedTet(c', interior, pool, t, rest, c1);
      BuildingStep(c, labels, c', labels', ts, pool, exterior, t.value, rest, c1);
      c', labels', pool, ts := c1, labels'[t.value := 0], rest, ts + [t.value];
    }
    if pool != [] {
      return Failure("create_tetrahedra: exterior faces are left over"), c', labels';
    }
    r := Success(ts);
  }
}
