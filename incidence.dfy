/**
 * The incidence kernel underneath the mesh interface, as a value: four maps
 * from keys to cells. Each cell holds its boundary links (edge -> nodes,
 * face -> edges, tet -> faces) and its co-boundary links (node -> edges,
 * edge -> faces, face -> tets). A key exists when it is in its map.
 *
 * `star`, `closure` and `link` and the unique-match lookups `get_edge`,
 * `get_face`, `get_tet` and `get_apex` are functions of that value.
 */
module Incidence {
  import opened Keys

  datatype NodeCell = NodeCell(coEdges: seq<EdgeKey>)
  datatype EdgeCell = EdgeCell(nodes: seq<NodeKey>, coFaces: seq<FaceKey>)
  datatype FaceCell = FaceCell(edges: seq<EdgeKey>, coTets: seq<TetKey>)
  datatype TetCell = TetCell(faces: seq<FaceKey>)

  datatype Complex = Complex(
    nodes: map<NodeKey, NodeCell>,
    edges: map<EdgeKey, EdgeCell>,
    faces: map<FaceKey, FaceCell>,
    tets: map<TetKey, TetCell>)

  /** A set of simplices, one key set per kind (the library's `simplex_set`). */
  datatype SimplexSet = SimplexSet(nodes: set<NodeKey>, edges: set<EdgeKey>, faces: set<FaceKey>, tets: set<TetKey>)

  const Empty := SimplexSet({}, {}, {}, {})

  function NodeSet(n: NodeKey): SimplexSet { SimplexSet({n}, {}, {}, {}) }
  function EdgeSet(e: EdgeKey): SimplexSet { SimplexSet({}, {e}, {}, {}) }
  function FaceSet(f: FaceKey): SimplexSet { SimplexSet({}, {}, {f}, {}) }
  function TetSet(t: TetKey): SimplexSet { SimplexSet({}, {}, {}, {t}) }
  function TetsSet(ts: set<TetKey>): SimplexSet { SimplexSet({}, {}, {}, ts) }

  /** Every simplex of `a` is in `b`. */
  predicate Within(a: SimplexSet, b: SimplexSet)
  {
    a.nodes <= b.nodes && a.edges <= b.edges && a.faces <= b.faces && a.tets <= b.tets
  }

  function Union(a: SimplexSet, b: SimplexSet): SimplexSet
  {
    SimplexSet(a.nodes + b.nodes, a.edges + b.edges, a.faces + b.faces, a.tets + b.tets)
  }

  function Intersect(a: SimplexSet, b: SimplexSet): SimplexSet
  {
    SimplexSet(a.nodes * b.nodes, a.edges * b.edges, a.faces * b.faces, a.tets * b.tets)
  }

  function Minus(a: SimplexSet, b: SimplexSet): SimplexSet
  {
    SimplexSet(a.nodes - b.nodes, a.edges - b.edges, a.faces - b.faces, a.tets - b.tets)
  }

  /**
   * What the kernel keeps true of its links: every link names an existing
   * simplex, and every boundary link is mirrored by a co-boundary link.
   */
  ghost predicate Linked(c: Complex)
  {
    NodesEdgesLinked(c) && EdgesFacesLinked(c) && FacesTetsLinked(c)
  }

  ghost predicate NodesEdgesLinked(c: Complex)
  {
    (forall n, e :: n in c.nodes && e in c.nodes[n].coEdges ==> e in c.edges && n in c.edges[e].nodes) &&
    (forall e, n :: e in c.edges && n in c.edges[e].nodes ==> n in c.nodes && e in c.nodes[n].coEdges)
  }

  ghost predicate EdgesFacesLinked(c: Complex)
  {
    (forall e, f :: e in c.edges && f in c.edges[e].coFaces ==> f in c.faces && e in c.faces[f].edges) &&
    (forall f, e :: f in c.faces && e in c.faces[f].edges ==> e in c.edges && f in c.edges[e].coFaces)
  }

  ghost predicate FacesTetsLinked(c: Complex)
  {
    (forall f, t :: f in c.faces && t in c.faces[f].coTets ==> t in c.tets && f in c.tets[t].faces) &&
    (forall t, f :: t in c.tets && f in c.tets[t].faces ==> f in c.faces && t in c.faces[f].coTets)
  }

  /** The links agree, and each live simplex has an attribute in the map for its kind. */
  ghost predicate Attributed<L, F, E, N>(c: Complex, labels: map<TetKey, L>, faceAttrs: map<FaceKey, F>,
                                         edgeAttrs: map<EdgeKey, E>, nodeAttrs: map<NodeKey, N>)
  {
    Linked(c) && labels.Keys == c.tets.Keys && faceAttrs.Keys == c.faces.Keys &&
    edgeAttrs.Keys == c.edges.Keys && nodeAttrs.Keys == c.nodes.Keys
  }

  /** A face lies between at most two tetrahedra. */
  ghost predicate Manifold(c: Complex)
  {
    forall f, t1, t2, t3 ::
      f in c.faces && t1 in c.faces[f].coTets && t2 in c.faces[f].coTets && t3 in c.faces[f].coTets ==>
        t1 == t2 || t1 == t3 || t2 == t3
  }

  // ---------------------------------------------------------------------------
  // one step up or down the incidence links
  // ---------------------------------------------------------------------------

  function EdgesUp(c: Complex, ns: set<NodeKey>): set<EdgeKey>
  {
    set n, e | n in ns && n in c.nodes && e in c.nodes[n].coEdges :: e
  }

  function FacesUp(c: Complex, es: set<EdgeKey>): set<FaceKey>
  {
    set e, f | e in es && e in c.edges && f in c.edges[e].coFaces :: f
  }

  function TetsUp(c: Complex, fs: set<FaceKey>): set<TetKey>
  {
    set f, t | f in fs && f in c.faces && t in c.faces[f].coTets :: t
  }

  function NodesDown(c: Complex, es: set<EdgeKey>): set<NodeKey>
  {
    set e, n | e in es && e in c.edges && n in c.edges[e].nodes :: n
  }

  function EdgesDown(c: Complex, fs: set<FaceKey>): set<EdgeKey>
  {
    set f, e | f in fs && f in c.faces && e in c.faces[f].edges :: e
  }

  function FacesDown(c: Complex, ts: set<TetKey>): set<FaceKey>
  {
    set t, f | t in ts && t in c.tets && f in c.tets[t].faces :: f
  }

  // ---------------------------------------------------------------------------
  // star (all co-faces, without the simplex itself), closure (all faces, with it), link
  // ---------------------------------------------------------------------------

  function StarOfNode(c: Complex, n: NodeKey): SimplexSet
  {
    var es := EdgesUp(c, {n});
    var fs := FacesUp(c, es);
    SimplexSet({}, es, fs, TetsUp(c, fs))
  }

  function StarOfEdge(c: Complex, e: EdgeKey): SimplexSet
  {
    var fs := FacesUp(c, {e});
    SimplexSet({}, {}, fs, TetsUp(c, fs))
  }

  function StarOfFace(c: Complex, f: FaceKey): SimplexSet
  {
    SimplexSet({}, {}, {}, TetsUp(c, {f}))
  }

  function Closure(c: Complex, s: SimplexSet): SimplexSet
  {
    var fs := s.faces + FacesDown(c, s.tets);
    var es := s.edges + EdgesDown(c, fs);
    SimplexSet(s.nodes + NodesDown(c, es), es, fs, s.tets)
  }

  /** The closure of a set of tetrahedra grows with the set: it holds the closure of each of them. */
  lemma ClosureGrows(c: Complex, done: set<TetKey>, t: TetKey)
    ensures Within(Closure(c, TetSet(t)), Closure(c, TetsSet(done + {t})))
    ensures Within(Closure(c, TetsSet(done)), Closure(c, TetsSet(done + {t})))
  {
  }

  function LinkOfEdge(c: Complex, e: EdgeKey): SimplexSet
  {
    Minus(Closure(c, StarOfEdge(c, e)), Closure(c, EdgeSet(e)))
  }

  function LinkOfFace(c: Complex, f: FaceKey): SimplexSet
  {
    Minus(Closure(c, StarOfFace(c, f)), Closure(c, FaceSet(f)))
  }

  // ---------------------------------------------------------------------------
  // unique-match lookups
  // ---------------------------------------------------------------------------

  /** The one element of a singleton set. */
  function TheOne<T(==)>(s: set<T>): (x: T)
    requires |s| == 1
    ensures s == {x}
  {
    SingletonElements(s);
    var x :| x in s; x
  }

  lemma SingletonElements<T>(s: set<T>)
    requires |s| == 1
    ensures forall x, y :: x in s && y in s ==> x == y
  {
    forall x, y | x in s && y in s ensures x == y {
      if x != y {
        TwoElements(s, x, y);
      }
    }
  }

  lemma TwoElements<T>(s: set<T>, x: T, y: T)
    requires x in s && y in s && x != y
    ensures |s| >= 2
  {
    assert {x, y} <= s;
    assert s == {x, y} + (s - {x, y});
  }

  /** `get_edge(n1, n2)`: the edge in both nodes' stars, when there is exactly one. */
  function GetEdge(c: Complex, n1: NodeKey, n2: NodeKey): (r: Option<EdgeKey>)
    ensures r.Some? <==> |StarOfNode(c, n1).edges * StarOfNode(c, n2).edges| == 1
    ensures r.Some? ==> StarOfNode(c, n1).edges * StarOfNode(c, n2).edges == {r.value}
  {
    var es := StarOfNode(c, n1).edges * StarOfNode(c, n2).edges;
    if |es| == 1 then Some(TheOne(es)) else None
  }

  /** `get_edge(f1, f2)`: the edge in both faces' closures, when there is exactly one. */
  function GetEdgeOfFaces(c: Complex, f1: FaceKey, f2: FaceKey): (r: Option<EdgeKey>)
    ensures r.Some? <==> |Closure(c, FaceSet(f1)).edges * Closure(c, FaceSet(f2)).edges| == 1
    ensures r.Some? ==> Closure(c, FaceSet(f1)).edges * Closure(c, FaceSet(f2)).edges == {r.value}
  {
    var es := Closure(c, FaceSet(f1)).edges * Closure(c, FaceSet(f2)).edges;
    if |es| == 1 then Some(TheOne(es)) else None
  }

  /** `get_face(n1, n2, n3)`: the face in all three nodes' stars, when there is exactly one. */
  function GetFace(c: Complex, n1: NodeKey, n2: NodeKey, n3: NodeKey): (r: Option<FaceKey>)
    ensures r.Some? <==> |StarOfNode(c, n1).faces * StarOfNode(c, n2).faces * StarOfNode(c, n3).faces| == 1
    ensures r.Some? ==> StarOfNode(c, n1).faces * StarOfNode(c, n2).faces * StarOfNode(c, n3).faces == {r.value}
  {
    var fs := StarOfNode(c, n1).faces * StarOfNode(c, n2).faces * StarOfNode(c, n3).faces;
    if |fs| == 1 then Some(TheOne(fs)) else None
  }

  /** `get_face(t1, t2)`: the face in both tetrahedra's closures, when there is exactly one. */
  function GetFaceOfTets(c: Complex, t1: TetKey, t2: TetKey): (r: Option<FaceKey>)
    ensures r.Some? <==> |Closure(c, TetSet(t1)).faces * Closure(c, TetSet(t2)).faces| == 1
    ensures r.Some? ==> Closure(c, TetSet(t1)).faces * Closure(c, TetSet(t2)).faces == {r.value}
  {
    var fs := Closure(c, TetSet(t1)).faces * Closure(c, TetSet(t2)).faces;
    if |fs| == 1 then Some(TheOne(fs)) else None
  }

  /** The first key of `s` other than `t`. */
  function FirstOther(s: seq<TetKey>, t: TetKey): (r: Option<TetKey>)
    ensures r.Some? ==> r.value in s && r.value != t
    ensures r.None? <==> forall x :: x in s ==> x == t
  {
    if s == [] then None
    else if s[0] != t then Some(s[0])
    else
      assert s == [s[0]] + s[1..];
      FirstOther(s[1..], t)
  }

  /** `get_tet(t, f)`: a tetrahedron around `f` (in its star) other than `t`, or the invalid key. */
  function GetTet(c: Complex, t: TetKey, f: FaceKey): (r: Option<TetKey>)
    ensures r.Some? ==> f in c.faces && r.value in c.faces[f].coTets && r.value != t
    ensures r.None? <==> f !in c.faces || forall x :: x in c.faces[f].coTets ==> x == t
  {
    if f in c.faces then FirstOther(c.faces[f].coTets, t) else None
  }

  /** The tetrahedra `get_tet` chooses from are those of the face's star. */
  lemma FaceStarIsCoTets(c: Complex, f: FaceKey)
    ensures StarOfFace(c, f).tets == if f in c.faces then set t | t in c.faces[f].coTets else {}
  {
  }

  /** `get_apex(f, e)`: the node of `f`'s closure that is not in `e`'s closure (asserted to be one). */
  function GetApex(c: Complex, f: FaceKey, e: EdgeKey): (r: Option<NodeKey>)
    ensures r.Some? <==> |Closure(c, FaceSet(f)).nodes - Closure(c, EdgeSet(e)).nodes| == 1
    ensures r.Some? ==> r.value in Closure(c, FaceSet(f)).nodes && r.value !in Closure(c, EdgeSet(e)).nodes
  {
    var ns := Closure(c, FaceSet(f)).nodes - Closure(c, EdgeSet(e)).nodes;
    if |ns| == 1 then Some(TheOne(ns)) else None
  }

  /**
   * On a triangle, `get_apex(f, e)` for one of its two-node edges finds the third
   * node: the face's nodes are the edge's two and the apex.
   */
  lemma GetApexCompletes(c: Complex, f: FaceKey, e: EdgeKey)
    requires f in c.faces && e in c.faces[f].edges
    requires |Closure(c, FaceSet(f)).nodes| == 3 && |Closure(c, EdgeSet(e)).nodes| == 2
    ensures GetApex(c, f, e).Some?
    ensures Closure(c, FaceSet(f)).nodes == Closure(c, EdgeSet(e)).nodes + {GetApex(c, f, e).value}
  {
    var fn, en := Closure(c, FaceSet(f)).nodes, Closure(c, EdgeSet(e)).nodes;
    EdgeNodesInFace(c, f, e);
    SubsetDifferenceSize(fn, en);
  }

  lemma EdgeNodesInFace(c: Complex, f: FaceKey, e: EdgeKey)
    requires f in c.faces && e in c.faces[f].edges
    ensures Closure(c, EdgeSet(e)).nodes <= Closure(c, FaceSet(f)).nodes
  {
    assert e in EdgesDown(c, {f});
  }

  /** A set in which any three elements repeat one has at most two. */
  lemma SetAtMostTwo<T>(s: set<T>)
    requires forall x, y, z :: x in s && y in s && z in s ==> x == y || x == z || y == z
    ensures |s| <= 2
  {
    if s != {} {
      var x :| x in s;
      if s - {x} != {} {
        var y :| y in s - {x};
        assert s <= {x, y};
        assert {x, y} == s + ({x, y} - s);
      } else {
        assert s == {x};
      }
    }
  }

  lemma SubsetDifferenceSize<T>(a: set<T>, b: set<T>)
    requires b <= a
    ensures |a - b| == |a| - |b| && a == b + (a - b)
  {
    assert a == b + (a - b);
  }

  // ---------------------------------------------------------------------------
  // star and closure are dual: y is in the star of x iff x is in the closure of y
  // ---------------------------------------------------------------------------

  /** The edges that join two nodes, read off the edges' own boundary links. */
  function Joining(c: Complex, n1: NodeKey, n2: NodeKey): set<EdgeKey>
  {
    set e | e in c.edges && n1 in c.edges[e].nodes && n2 in c.edges[e].nodes
  }

  lemma NodeStarEdges(c: Complex, n: NodeKey)
    requires NodesEdgesLinked(c)
    ensures StarOfNode(c, n).edges == set e | e in c.edges && n in c.edges[e].nodes
  {
    var rhs := set e | e in c.edges && n in c.edges[e].nodes;
    forall e | e in rhs ensures e in EdgesUp(c, {n}) {
      assert n in c.nodes && e in c.nodes[n].coEdges;
    }
  }

  /** `get_edge(n1, n2)` finds an edge exactly when one edge has both nodes on its boundary. */
  lemma GetEdgeJoins(c: Complex, n1: NodeKey, n2: NodeKey)
    requires NodesEdgesLinked(c)
    ensures forall e :: GetEdge(c, n1, n2) == Some(e) <==> Joining(c, n1, n2) == {e}
  {
    NodeStarEdges(c, n1);
    NodeStarEdges(c, n2);
    assert StarOfNode(c, n1).edges * StarOfNode(c, n2).edges == Joining(c, n1, n2);
  }

  /** The closure of a single face: its edges and their nodes. */
  lemma FaceClosure(c: Complex, f: FaceKey)
    ensures Closure(c, FaceSet(f)).edges == EdgesDown(c, {f})
    ensures Closure(c, FaceSet(f)).nodes == NodesDown(c, EdgesDown(c, {f}))
  {
    assert FacesDown(c, {}) == {};
    assert {f} + FacesDown(c, {}) == {f};
  }

  lemma NodeStarFaces(c: Complex, n: NodeKey)
    requires NodesEdgesLinked(c) && EdgesFacesLinked(c)
    ensures StarOfNode(c, n).faces == set f | f in c.faces && n in NodesDown(c, EdgesDown(c, {f}))
  {
    NodeStarFacesSpan(c, n);
    NodeSpanFacesStar(c, n);
  }

  lemma NodeStarFacesSpan(c: Complex, n: NodeKey)
    requires NodesEdgesLinked(c) && EdgesFacesLinked(c)
    ensures forall f :: f in StarOfNode(c, n).faces ==> f in c.faces && n in NodesDown(c, EdgesDown(c, {f}))
  {
    forall f | f in StarOfNode(c, n).faces ensures f in c.faces && n in NodesDown(c, EdgesDown(c, {f})) {
      var e :| e in EdgesUp(c, {n}) && e in c.edges && f in c.edges[e].coFaces;
      assert n in c.nodes && e in c.nodes[n].coEdges;
      assert f in c.faces && e in c.faces[f].edges;
      assert e in EdgesDown(c, {f});
      assert n in c.edges[e].nodes;
    }
  }

  lemma NodeSpanFacesStar(c: Complex, n: NodeKey)
    requires NodesEdgesLinked(c) && EdgesFacesLinked(c)
    ensures forall f :: f in c.faces && n in NodesDown(c, EdgesDown(c, {f})) ==> f in StarOfNode(c, n).faces
  {
    forall f | f in c.faces && n in NodesDown(c, EdgesDown(c, {f})) ensures f in StarOfNode(c, n).faces {
      var e :| e in EdgesDown(c, {f}) && e in c.edges && n in c.edges[e].nodes;
      assert e in c.faces[f].edges;
      assert f in c.edges[e].coFaces;
      assert n in c.nodes && e in c.nodes[n].coEdges;
      assert e in EdgesUp(c, {n});
    }
  }

  /** The faces whose closure holds all three nodes. */
  ghost function Spanning(c: Complex, n1: NodeKey, n2: NodeKey, n3: NodeKey): set<FaceKey>
  {
    set g | g in c.faces && n1 in Closure(c, FaceSet(g)).nodes && n2 in Closure(c, FaceSet(g)).nodes &&
      n3 in Closure(c, FaceSet(g)).nodes
  }

  /** `get_face(n1, n2, n3)` searches exactly the faces that span the three nodes. */
  lemma GetFaceSpans(c: Complex, n1: NodeKey, n2: NodeKey, n3: NodeKey)
    requires NodesEdgesLinked(c) && EdgesFacesLinked(c)
    ensures StarOfNode(c, n1).faces * StarOfNode(c, n2).faces * StarOfNode(c, n3).faces == Spanning(c, n1, n2, n3)
  {
    NodeStarFaces(c, n1);
    NodeStarFaces(c, n2);
    NodeStarFaces(c, n3);
    forall g | g in c.faces {
      FaceClosure(c, g);
    }
  }

  lemma TetClosureFaces(c: Complex, t: TetKey)
    ensures Closure(c, TetSet(t)).faces == if t in c.tets then set f | f in c.tets[t].faces else {}
  {
  }

  lemma FaceStarTets(c: Complex, f: FaceKey)
    requires FacesTetsLinked(c)
    ensures StarOfFace(c, f).tets == set t | t in c.tets && f in c.tets[t].faces
  {
    var rhs := set t | t in c.tets && f in c.tets[t].faces;
    forall t | t in rhs ensures t in TetsUp(c, {f}) {
      assert f in c.faces && t in c.faces[f].coTets;
    }
  }

  /** When a face has two tetrahedra around it, each is the other's `get_tet` through it. */
  lemma {:induction false} FirstOtherOfPair(s: seq<TetKey>, u: TetKey, v: TetKey)
    requires v in s && u != v
    requires forall x :: x in s ==> x == u || x == v
    ensures FirstOther(s, u) == Some(v)
  {
    if s[0] == u {
      assert s == [s[0]] + s[1..];
      assert forall x :: x in s[1..] ==> x in s;
      FirstOtherOfPair(s[1..], u, v);
    }
  }

  lemma GetTetOnManifold(c: Complex, u: TetKey, v: TetKey, f: FaceKey)
    requires Manifold(c)
    requires f in c.faces && u in c.faces[f].coTets && v in c.faces[f].coTets && v != u
    ensures GetTet(c, u, f) == Some(v)
  {
    var s := c.faces[f].coTets;
    forall x | x in s ensures x == u || x == v {
      assert x == u || x == v || u == v;
    }
    FirstOtherOfPair(s, u, v);
  }

  /** Going through a face and back returns to the start (at most two tetrahedra per face). */
  lemma GetTetSymmetric(c: Complex, u: TetKey, v: TetKey, f: FaceKey)
    requires FacesTetsLinked(c) && Manifold(c)
    requires u in c.tets && f in c.tets[u].faces && GetTet(c, u, f) == Some(v)
    ensures v in c.tets && f in c.tets[v].faces && GetTet(c, v, f) == Some(u)
  {
    assert f in c.faces && u in c.faces[f].coTets;
    assert v in c.faces[f].coTets;
    GetTetOnManifold(c, v, u, f);
  }

  /** The face `get_face(t1, t2)` finds is a face of both tetrahedra. */
  lemma GetFaceOfTetsShared(c: Complex, t1: TetKey, t2: TetKey)
    requires GetFaceOfTets(c, t1, t2).Some?
    ensures var f := GetFaceOfTets(c, t1, t2).value;
      t1 in c.tets && t2 in c.tets && f in c.tets[t1].faces && f in c.tets[t2].faces
  {
    var f := GetFaceOfTets(c, t1, t2).value;
    TetClosureFaces(c, t1);
    TetClosureFaces(c, t2);
    assert f in Closure(c, TetSet(t1)).faces * Closure(c, TetSet(t2)).faces;
  }

  /** The face `get_face(t1, t2)` finds is the one through which `get_tet` leads from `t1` to `t2`. */
  lemma GetFaceThenGetTet(c: Complex, t1: TetKey, t2: TetKey)
    requires FacesTetsLinked(c) && Manifold(c)
    requires t1 != t2 && GetFaceOfTets(c, t1, t2).Some?
    ensures GetTet(c, t1, GetFaceOfTets(c, t1, t2).value) == Some(t2)
  {
    var f := GetFaceOfTets(c, t1, t2).value;
    GetFaceOfTetsShared(c, t1, t2);
    assert t1 in c.faces[f].coTets && t2 in c.faces[f].coTets;
    GetTetOnManifold(c, t1, t2, f);
  }

  /** The edge `get_edge(f1, f2)` finds has both faces in its star. */
  lemma GetEdgeOfFacesInStar(c: Complex, f1: FaceKey, f2: FaceKey)
    requires EdgesFacesLinked(c)
    requires GetEdgeOfFaces(c, f1, f2).Some?
    ensures var e := GetEdgeOfFaces(c, f1, f2).value;
      f1 in StarOfEdge(c, e).faces && f2 in StarOfEdge(c, e).faces
  {
    var e := GetEdgeOfFaces(c, f1, f2).value;
    FaceClosure(c, f1);
    FaceClosure(c, f2);
    assert e in EdgesDown(c, {f1}) && e in EdgesDown(c, {f2});
    assert f1 in c.faces && e in c.faces[f1].edges;
    assert f2 in c.faces && e in c.faces[f2].edges;
    FaceInEdgeStar(c, f1, e);
    FaceInEdgeStar(c, f2, e);
  }

  /** Under the links, a face lies in the star of each of its edges. */
  lemma FaceInEdgeStar(c: Complex, f: FaceKey, e: EdgeKey)
    requires EdgesFacesLinked(c) && f in c.faces && e in c.faces[f].edges
    ensures f in StarOfEdge(c, e).faces
  {
    assert e in c.edges && f in c.edges[e].coFaces;
  }

  /** Under the links, the tetrahedra around a simplex exist. */
  lemma StarTetsLive(c: Complex, f: FaceKey)
    requires FacesTetsLinked(c)
    ensures StarOfFace(c, f).tets <= c.tets.Keys
  {
  }

  lemma StarTetsOfEdgeLive(c: Complex, e: EdgeKey)
    requires FacesTetsLinked(c)
    ensures StarOfEdge(c, e).tets <= c.tets.Keys
  {
  }

  lemma StarTetsOfNodeLive(c: Complex, n: NodeKey)
    requires FacesTetsLinked(c)
    ensures StarOfNode(c, n).tets <= c.tets.Keys
  {
  }

  lemma StarEdgesLive(c: Complex, n: NodeKey)
    requires NodesEdgesLinked(c)
    ensures StarOfNode(c, n).edges <= c.edges.Keys
  {
  }

  lemma FaceClosureEdgesLive(c: Complex, f: FaceKey)
    requires EdgesFacesLinked(c)
    ensures Closure(c, FaceSet(f)).edges <= c.edges.Keys
  {
    FaceClosure(c, f);
  }
}
