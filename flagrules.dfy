/**
 * The flag rules of the mesh interface and the order in which `update`
 * applies them. A face is boundary or interface according to the tetrahedra
 * around it; an edge collects the flags of its faces; a node collects the
 * flags of its edges and, in addition, becomes crossing when three or more
 * label-connected regions meet around it.
 *
 * The rules are stated here as functions of the complex, the labels and the
 * flags they read; the mesh's update methods are proved to compute them.
 */
module FlagRules {
  import opened Keys
  import opened Incidence
  import opened Regions

  datatype FaceFlags = FaceFlags(boundary: bool, interface: bool)
  datatype Flags = Flags(boundary: bool, interface: bool, crossing: bool)

  /** The stored flags of every face, edge and node. */
  datatype FlagState = FlagState(faces: map<FaceKey, FaceFlags>, edges: map<EdgeKey, Flags>, nodes: map<NodeKey, Flags>)

  // ---------------------------------------------------------------------------
  // the three rules
  // ---------------------------------------------------------------------------

  /**
   * `update_flag(face)`: boundary iff exactly one tetrahedron lies around the
   * face; interface iff that one has a non-zero label, or the two around it
   * have different labels. With none, or more than two, both stay false.
   */
  ghost function FaceRule(ts: set<TetKey>, labels: map<TetKey, int>): FaceFlags
    requires ts <= labels.Keys
  {
    FaceFlags(
      |ts| == 1,
      (|ts| == 1 && exists t :: t in ts && labels[t] != 0) ||
      (|ts| == 2 && exists t0, t1 :: t0 in ts && t1 in ts && labels[t0] != labels[t1]))
  }

  /** The interface faces among `fs`. */
  ghost function InterfaceFaces(fs: set<FaceKey>, faceFlags: map<FaceKey, FaceFlags>): set<FaceKey>
    requires fs <= faceFlags.Keys
  {
    set f | f in fs && faceFlags[f].interface
  }

  lemma InterfaceFacesAdd(fs: set<FaceKey>, g: FaceKey, faceFlags: map<FaceKey, FaceFlags>)
    requires fs <= faceFlags.Keys && g in faceFlags && g !in fs
    ensures |InterfaceFaces(fs + {g}, faceFlags)| ==
      |InterfaceFaces(fs, faceFlags)| + (if faceFlags[g].interface then 1 else 0)
  {
    if faceFlags[g].interface {
      assert InterfaceFaces(fs + {g}, faceFlags) == InterfaceFaces(fs, faceFlags) + {g};
    } else {
      assert InterfaceFaces(fs + {g}, faceFlags) == InterfaceFaces(fs, faceFlags);
    }
  }

  /**
   * `update_flag(edge)`: boundary and interface are the OR of those flags over
   * the edge's existing faces; crossing iff more than two of them are interface.
   */
  ghost function EdgeRule(fs: set<FaceKey>, faceFlags: map<FaceKey, FaceFlags>): Flags
    requires fs <= faceFlags.Keys
  {
    Flags(
      exists f :: f in fs && faceFlags[f].boundary,
      exists f :: f in fs && faceFlags[f].interface,
      |InterfaceFaces(fs, faceFlags)| > 2)
  }

  /**
   * `update_flag(node)`: the OR of the flags of the node's existing edges; an
   * interface node that is not yet crossing becomes crossing when `three`
   * (three regions meet around it) holds.
   */
  ghost function NodeRule(es: set<EdgeKey>, edgeFlags: map<EdgeKey, Flags>, three: bool): Flags
    requires es <= edgeFlags.Keys
  {
    var boundary := exists e :: e in es && edgeFlags[e].boundary;
    var interface := exists e :: e in es && edgeFlags[e].interface;
    var crossing := exists e :: e in es && edgeFlags[e].crossing;
    Flags(boundary, interface, crossing || (interface && three))
  }

  // ---------------------------------------------------------------------------
  // the rules read off the complex
  // ---------------------------------------------------------------------------

  ghost function FaceFlagsOf(c: Complex, labels: map<TetKey, int>, f: FaceKey): FaceFlags
    requires FacesTetsLinked(c) && c.tets.Keys <= labels.Keys
  {
    StarTetsLive(c, f);
    FaceRule(StarOfFace(c, f).tets, labels)
  }

  /** The faces of the edge's star that exist. */
  function LiveStarFaces(c: Complex, e: EdgeKey): set<FaceKey>
  {
    set f | f in StarOfEdge(c, e).faces && f in c.faces
  }

  ghost function EdgeFlagsOf(c: Complex, faceFlags: map<FaceKey, FaceFlags>, e: EdgeKey): Flags
    requires c.faces.Keys <= faceFlags.Keys
  {
    EdgeRule(LiveStarFaces(c, e), faceFlags)
  }

  /** The edges of the node's star that exist. */
  function LiveStarEdges(c: Complex, n: NodeKey): set<EdgeKey>
  {
    set e | e in StarOfNode(c, n).edges && e in c.edges
  }

  ghost function NodeFlagsOf(c: Complex, labels: map<TetKey, int>, edgeFlags: map<EdgeKey, Flags>, n: NodeKey): Flags
    requires c.edges.Keys <= edgeFlags.Keys
  {
    NodeRule(LiveStarEdges(c, n), edgeFlags, ThreeComponents(c, labels, StarOfNode(c, n).tets))
  }

  /** The node rule, given the three ORs over the node's existing edges. */
  lemma NodeFlagsOfIs(c: Complex, labels: map<TetKey, int>, edgeFlags: map<EdgeKey, Flags>, n: NodeKey,
                      boundary: bool, interface: bool, crossing: bool)
    requires c.edges.Keys <= edgeFlags.Keys
    requires boundary <==> exists e :: e in LiveStarEdges(c, n) && edgeFlags[e].boundary
    requires interface <==> exists e :: e in LiveStarEdges(c, n) && edgeFlags[e].interface
    requires crossing <==> exists e :: e in LiveStarEdges(c, n) && edgeFlags[e].crossing
    ensures NodeFlagsOf(c, labels, edgeFlags, n) ==
      Flags(boundary, interface, crossing || (interface && ThreeComponents(c, labels, StarOfNode(c, n).tets)))
  {
  }

  /** Flags are stored for every simplex of the complex. */
  ghost predicate Covers(c: Complex, labels: map<TetKey, int>, st: FlagState)
  {
    c.tets.Keys <= labels.Keys && c.faces.Keys <= st.faces.Keys &&
    c.edges.Keys <= st.edges.Keys && c.nodes.Keys <= st.nodes.Keys
  }

  /** The flags of the existing simplices of `s` are what the rules give. */
  ghost predicate CurrentOn(c: Complex, labels: map<TetKey, int>, st: FlagState, s: SimplexSet)
    requires FacesTetsLinked(c) && Covers(c, labels, st)
  {
    (forall f :: f in s.faces && f in c.faces ==> st.faces[f] == FaceFlagsOf(c, labels, f)) &&
    (forall e :: e in s.edges && e in c.edges ==> st.edges[e] == EdgeFlagsOf(c, st.faces, e)) &&
    (forall n :: n in s.nodes && n in c.nodes ==> st.nodes[n] == NodeFlagsOf(c, labels, st.edges, n))
  }

  function Everything(c: Complex): SimplexSet
  {
    SimplexSet(c.nodes.Keys, c.edges.Keys, c.faces.Keys, c.tets.Keys)
  }

  // ---------------------------------------------------------------------------
  // `update`: faces, then edges (reading the new face flags), then nodes
  // ---------------------------------------------------------------------------

  ghost function FacesUpdated(c: Complex, labels: map<TetKey, int>, faceFlags: map<FaceKey, FaceFlags>,
                              fs: set<FaceKey>): map<FaceKey, FaceFlags>
    requires FacesTetsLinked(c) && c.tets.Keys <= labels.Keys
  {
    map f | f in faceFlags :: if f in fs && f in c.faces then FaceFlagsOf(c, labels, f) else faceFlags[f]
  }

  ghost function EdgesUpdated(c: Complex, faceFlags: map<FaceKey, FaceFlags>, edgeFlags: map<EdgeKey, Flags>,
                              es: set<EdgeKey>): map<EdgeKey, Flags>
    requires c.faces.Keys <= faceFlags.Keys
  {
    map e | e in edgeFlags :: if e in es && e in c.edges then EdgeFlagsOf(c, faceFlags, e) else edgeFlags[e]
  }

  ghost function NodesUpdated(c: Complex, labels: map<TetKey, int>, edgeFlags: map<EdgeKey, Flags>,
                              nodeFlags: map<NodeKey, Flags>, ns: set<NodeKey>): map<NodeKey, Flags>
    requires c.edges.Keys <= edgeFlags.Keys
  {
    map n | n in nodeFlags :: if n in ns && n in c.nodes then NodeFlagsOf(c, labels, edgeFlags, n) else nodeFlags[n]
  }

  lemma FacesUpdatedStep(c: Complex, labels: map<TetKey, int>, faceFlags: map<FaceKey, FaceFlags>,
                          done: set<FaceKey>, f: FaceKey)
    requires FacesTetsLinked(c) && c.tets.Keys <= labels.Keys && c.faces.Keys <= faceFlags.Keys
    ensures FacesUpdated(c, labels, faceFlags, done + {f}) ==
      if f in c.faces then FacesUpdated(c, labels, faceFlags, done)[f := FaceFlagsOf(c, labels, f)]
      else FacesUpdated(c, labels, faceFlags, done)
  {
  }

  lemma EdgesUpdatedStep(c: Complex, faceFlags: map<FaceKey, FaceFlags>, edgeFlags: map<EdgeKey, Flags>,
                         done: set<EdgeKey>, e: EdgeKey)
    requires c.faces.Keys <= faceFlags.Keys && c.edges.Keys <= edgeFlags.Keys
    ensures EdgesUpdated(c, faceFlags, edgeFlags, done + {e}) ==
      if e in c.edges then EdgesUpdated(c, faceFlags, edgeFlags, done)[e := EdgeFlagsOf(c, faceFlags, e)]
      else EdgesUpdated(c, faceFlags, edgeFlags, done)
  {
  }

  lemma NodesUpdatedStep(c: Complex, labels: map<TetKey, int>, edgeFlags: map<EdgeKey, Flags>,
                         nodeFlags: map<NodeKey, Flags>, done: set<NodeKey>, n: NodeKey)
    requires c.edges.Keys <= edgeFlags.Keys && c.nodes.Keys <= nodeFlags.Keys
    ensures NodesUpdated(c, labels, edgeFlags, nodeFlags, done + {n}) ==
      if n in c.nodes then NodesUpdated(c, labels, edgeFlags, nodeFlags, done)[n := NodeFlagsOf(c, labels, edgeFlags, n)]
      else NodesUpdated(c, labels, edgeFlags, nodeFlags, done)
  {
  }

  /** The flags after `update(s)`. */
  ghost function Updated(c: Complex, labels: map<TetKey, int>, st: FlagState, s: SimplexSet): FlagState
    requires FacesTetsLinked(c) && Covers(c, labels, st)
  {
    var faces := FacesUpdated(c, labels, st.faces, s.faces);
    var edges := EdgesUpdated(c, faces, st.edges, s.edges);
    FlagState(faces, edges, NodesUpdated(c, labels, edges, st.nodes, s.nodes))
  }

  // ---------------------------------------------------------------------------
  // what `update` achieves
  // ---------------------------------------------------------------------------

  /** After `update(s)`, the flags of every existing simplex of `s` follow the rules, and nothing else changed. */
  lemma UpdatedIsCurrentOn(c: Complex, labels: map<TetKey, int>, st: FlagState, s: SimplexSet)
    requires FacesTetsLinked(c) && Covers(c, labels, st)
    ensures var st' := Updated(c, labels, st, s);
      st'.faces.Keys == st.faces.Keys && st'.edges.Keys == st.edges.Keys && st'.nodes.Keys == st.nodes.Keys &&
      Covers(c, labels, st') && CurrentOn(c, labels, st', s) &&
      (forall f :: f in st.faces && (f !in s.faces || f !in c.faces) ==> st'.faces[f] == st.faces[f]) &&
      (forall e :: e in st.edges && (e !in s.edges || e !in c.edges) ==> st'.edges[e] == st.edges[e]) &&
      (forall n :: n in st.nodes && (n !in s.nodes || n !in c.nodes) ==> st'.nodes[n] == st.nodes[n])
  {
  }

  /** `st'` stores flags for the same simplices as `st`, and differs from it only on the simplices of `s`. */
  ghost predicate KeptOutside(st: FlagState, st': FlagState, s: SimplexSet)
  {
    st'.faces.Keys == st.faces.Keys && st'.edges.Keys == st.edges.Keys && st'.nodes.Keys == st.nodes.Keys &&
    (forall f :: f in st.faces && f !in s.faces ==> st'.faces[f] == st.faces[f]) &&
    (forall e :: e in st.edges && e !in s.edges ==> st'.edges[e] == st.edges[e]) &&
    (forall n :: n in st.nodes && n !in s.nodes ==> st'.nodes[n] == st.nodes[n])
  }

  /** `update(s)` changes only the flags of `s`. */
  lemma UpdatedKeptOutside(c: Complex, labels: map<TetKey, int>, st: FlagState, s: SimplexSet)
    requires FacesTetsLinked(c) && Covers(c, labels, st)
    ensures KeptOutside(st, Updated(c, labels, st, s), s)
  {
    UpdatedIsCurrentOn(c, labels, st, s);
  }

  /** No step changes no flag. */
  lemma KeptOutsideRefl(st: FlagState, s: SimplexSet)
    ensures KeptOutside(st, st, s)
  {
  }

  /** Two steps that each change flags only within `s` change flags only within `s`. */
  lemma KeptOutsideTrans(st1: FlagState, st2: FlagState, st3: FlagState, s1: SimplexSet, s2: SimplexSet, s: SimplexSet)
    requires KeptOutside(st1, st2, s1) && KeptOutside(st2, st3, s2) && Within(s1, s) && Within(s2, s)
    ensures KeptOutside(st1, st3, s)
  {
  }

  /** Running `update(s)` a second time on an unchanged mesh changes no flag. */
  lemma UpdateIdempotent(c: Complex, labels: map<TetKey, int>, st: FlagState, s: SimplexSet)
    requires FacesTetsLinked(c) && Covers(c, labels, st)
    ensures Covers(c, labels, Updated(c, labels, st, s))
    ensures Updated(c, labels, Updated(c, labels, st, s), s) == Updated(c, labels, st, s)
  {
    UpdatedIsCurrentOn(c, labels, st, s);
    UpdateOfCurrent(c, labels, Updated(c, labels, st, s), s);
  }

  /** Where the flags already follow the rules, `update(s)` changes nothing. */
  lemma UpdateOfCurrent(c: Complex, labels: map<TetKey, int>, st: FlagState, s: SimplexSet)
    requires FacesTetsLinked(c) && Covers(c, labels, st) && CurrentOn(c, labels, st, s)
    ensures Updated(c, labels, st, s) == st
  {
    FacesUpdatedCurrent(c, labels, st, s);
    EdgesUpdatedCurrent(c, labels, st, s);
    NodesUpdatedCurrent(c, labels, st, s);
  }

  lemma FacesUpdatedCurrent(c: Complex, labels: map<TetKey, int>, st: FlagState, s: SimplexSet)
    requires FacesTetsLinked(c) && Covers(c, labels, st) && CurrentOn(c, labels, st, s)
    ensures FacesUpdated(c, labels, st.faces, s.faces) == st.faces
  {
  }

  lemma EdgesUpdatedCurrent(c: Complex, labels: map<TetKey, int>, st: FlagState, s: SimplexSet)
    requires FacesTetsLinked(c) && Covers(c, labels, st) && CurrentOn(c, labels, st, s)
    ensures EdgesUpdated(c, st.faces, st.edges, s.edges) == st.edges
  {
  }

  lemma NodesUpdatedCurrent(c: Complex, labels: map<TetKey, int>, st: FlagState, s: SimplexSet)
    requires FacesTetsLinked(c) && Covers(c, labels, st) && CurrentOn(c, labels, st, s)
    ensures NodesUpdated(c, labels, st.edges, st.nodes, s.nodes) == st.nodes
  {
  }

  /** `init` (an update of every simplex) makes every flag follow the rules, whatever they were. */
  lemma InitMakesCurrent(c: Complex, labels: map<TetKey, int>, st: FlagState)
    requires FacesTetsLinked(c) && Covers(c, labels, st)
    ensures Covers(c, labels, Updated(c, labels, st, Everything(c)))
    ensures CurrentOn(c, labels, Updated(c, labels, st, Everything(c)), Everything(c))
  {
    UpdatedIsCurrentOn(c, labels, st, Everything(c));
  }

  // ---------------------------------------------------------------------------
  // `set_label` relabels one tetrahedron and updates its closure: that suffices
  // ---------------------------------------------------------------------------

  lemma ClosureOfTetFacesUp(c: Complex, t: TetKey)
    requires FacesTetsLinked(c)
    ensures forall f :: t in StarOfFace(c, f).tets ==> f in Closure(c, TetSet(t)).faces
  {
    forall f | t in StarOfFace(c, f).tets ensures f in Closure(c, TetSet(t)).faces {
      assert f in c.faces && t in c.faces[f].coTets;
      assert t in c.tets && f in c.tets[t].faces;
      assert f in FacesDown(c, {t});
    }
  }

  lemma ClosureOfTetEdgesUp(c: Complex, t: TetKey)
    requires EdgesFacesLinked(c)
    ensures var cl := Closure(c, TetSet(t));
      forall e, g :: g in StarOfEdge(c, e).faces && g in cl.faces ==> e in cl.edges
  {
    var cl := Closure(c, TetSet(t));
    forall e, g | g in StarOfEdge(c, e).faces && g in cl.faces ensures e in cl.edges {
      assert e in c.edges && g in c.edges[e].coFaces;
      assert g in c.faces && e in c.faces[g].edges;
      assert e in EdgesDown(c, cl.faces);
    }
  }

  lemma ClosureOfTetNodesUp(c: Complex, t: TetKey)
    requires NodesEdgesLinked(c)
    ensures var cl := Closure(c, TetSet(t));
      forall n, e :: e in StarOfNode(c, n).edges && e in cl.edges ==> n in cl.nodes
  {
    var cl := Closure(c, TetSet(t));
    forall n, e | e in StarOfNode(c, n).edges && e in cl.edges ensures n in cl.nodes {
      assert n in c.nodes && e in c.nodes[n].coEdges;
      assert e in c.edges && n in c.edges[e].nodes;
      assert n in NodesDown(c, cl.edges);
    }
  }

  /** A simplex whose star reaches into the closure of `t` is itself in that closure. */
  lemma ClosureOfTetIsUpClosed(c: Complex, t: TetKey)
    requires Linked(c)
    ensures var cl := Closure(c, TetSet(t));
      (forall f :: t in StarOfFace(c, f).tets ==> f in cl.faces) &&
      (forall e, g :: g in StarOfEdge(c, e).faces && g in cl.faces ==> e in cl.edges) &&
      (forall n, e :: e in StarOfNode(c, n).edges && e in cl.edges ==> n in cl.nodes) &&
      (forall n :: t in StarOfNode(c, n).tets ==> n in cl.nodes)
  {
    var cl := Closure(c, TetSet(t));
    ClosureOfTetFacesUp(c, t);
    ClosureOfTetEdgesUp(c, t);
    ClosureOfTetNodesUp(c, t);
    forall n | t in StarOfNode(c, n).tets ensures n in cl.nodes {
      var g :| g in FacesUp(c, EdgesUp(c, {n})) && g in c.faces && t in c.faces[g].coTets;
      var e :| e in EdgesUp(c, {n}) && e in c.edges && g in c.edges[e].coFaces;
      assert g in cl.faces by {
        assert t in StarOfFace(c, g).tets;
      }
      assert e in StarOfNode(c, n).edges;
      assert g in StarOfEdge(c, e).faces;
      assert e in cl.edges;
    }
  }

  lemma FaceRuleSameLabels(ts: set<TetKey>, labels: map<TetKey, int>, labels': map<TetKey, int>)
    requires ts <= labels.Keys && ts <= labels'.Keys
    requires forall t :: t in ts ==> labels[t] == labels'[t]
    ensures FaceRule(ts, labels) == FaceRule(ts, labels')
  {
  }

  lemma EdgeRuleSameFlags(fs: set<FaceKey>, ff: map<FaceKey, FaceFlags>, ff': map<FaceKey, FaceFlags>)
    requires fs <= ff.Keys && fs <= ff'.Keys
    requires forall f :: f in fs ==> ff[f] == ff'[f]
    ensures EdgeRule(fs, ff) == EdgeRule(fs, ff')
  {
    assert InterfaceFaces(fs, ff) == InterfaceFaces(fs, ff');
  }

  lemma NodeRuleSameFlags(es: set<EdgeKey>, ef: map<EdgeKey, Flags>, ef': map<EdgeKey, Flags>, three: bool)
    requires es <= ef.Keys && es <= ef'.Keys
    requires forall e :: e in es ==> ef[e] == ef'[e]
    ensures NodeRule(es, ef, three) == NodeRule(es, ef', three)
  {
  }

  /**
   * `set_label(t, l)` followed by `update(closure(t))` leaves every flag of the
   * mesh current: a simplex outside the closure of `t` reads no label, face
   * flag or edge flag that changed.
   */
  lemma SetLabelKeepsFlagsCurrent(c: Complex, labels: map<TetKey, int>, st: FlagState, t: TetKey, l: int)
    requires Linked(c) && Covers(c, labels, st) && t in c.tets
    requires CurrentOn(c, labels, st, Everything(c))
    ensures Covers(c, labels[t := l], st)
    ensures var st' := Updated(c, labels[t := l], st, Closure(c, TetSet(t)));
      Covers(c, labels[t := l], st') && CurrentOn(c, labels[t := l], st', Everything(c))
  {
    var labels' := labels[t := l];
    var cl := Closure(c, TetSet(t));
    var st' := Updated(c, labels', st, cl);
    UpdatedIsCurrentOn(c, labels', st, cl);
    ClosureOfTetIsUpClosed(c, t);
    FacesOutsideStayCurrent(c, labels, labels', st, st', cl, t);
    EdgesOutsideStayCurrent(c, st, st', cl);
    NodesOutsideStayCurrent(c, labels, labels', st, st', cl, t);
  }

  lemma FacesOutsideStayCurrent(c: Complex, labels: map<TetKey, int>, labels': map<TetKey, int>,
                                st: FlagState, st': FlagState, cl: SimplexSet, t: TetKey)
    requires FacesTetsLinked(c) && Covers(c, labels, st) && Covers(c, labels', st')
    requires labels'.Keys == labels.Keys && forall x :: x in labels && x != t ==> labels'[x] == labels[x]
    requires forall f :: t in StarOfFace(c, f).tets ==> f in cl.faces
    requires forall f :: f in c.faces ==> st.faces[f] == FaceFlagsOf(c, labels, f)
    requires forall f :: f in c.faces && f !in cl.faces ==> st'.faces[f] == st.faces[f]
    ensures forall f :: f in c.faces && f !in cl.faces ==> st'.faces[f] == FaceFlagsOf(c, labels', f)
  {
    forall f | f in c.faces && f !in cl.faces
      ensures st'.faces[f] == FaceFlagsOf(c, labels', f)
    {
      StarTetsLive(c, f);
      FaceRuleSameLabels(StarOfFace(c, f).tets, labels, labels');
    }
  }

  lemma EdgesOutsideStayCurrent(c: Complex, st: FlagState, st': FlagState, cl: SimplexSet)
    requires c.faces.Keys <= st.faces.Keys && c.faces.Keys <= st'.faces.Keys
    requires c.edges.Keys <= st.edges.Keys && c.edges.Keys <= st'.edges.Keys
    requires forall e, g :: g in StarOfEdge(c, e).faces && g in cl.faces ==> e in cl.edges
    requires forall e :: e in c.edges ==> st.edges[e] == EdgeFlagsOf(c, st.faces, e)
    requires forall f :: f in c.faces && f !in cl.faces ==> st'.faces[f] == st.faces[f]
    requires forall e :: e in c.edges && e !in cl.edges ==> st'.edges[e] == st.edges[e]
    ensures forall e :: e in c.edges && e !in cl.edges ==> st'.edges[e] == EdgeFlagsOf(c, st'.faces, e)
  {
    forall e | e in c.edges && e !in cl.edges
      ensures st'.edges[e] == EdgeFlagsOf(c, st'.faces, e)
    {
      forall g | g in LiveStarFaces(c, e) ensures st.faces[g] == st'.faces[g] {
        assert g !in cl.faces;
      }
      EdgeRuleSameFlags(LiveStarFaces(c, e), st.faces, st'.faces);
    }
  }

  lemma NodesOutsideStayCurrent(c: Complex, labels: map<TetKey, int>, labels': map<TetKey, int>,
                                st: FlagState, st': FlagState, cl: SimplexSet, t: TetKey)
    requires c.edges.Keys <= st.edges.Keys && c.edges.Keys <= st'.edges.Keys
    requires c.nodes.Keys <= st.nodes.Keys && c.nodes.Keys <= st'.nodes.Keys
    requires labels'.Keys == labels.Keys && forall x :: x in labels && x != t ==> labels'[x] == labels[x]
    requires forall n, e :: e in StarOfNode(c, n).edges && e in cl.edges ==> n in cl.nodes
    requires forall n :: t in StarOfNode(c, n).tets ==> n in cl.nodes
    requires forall n :: n in c.nodes ==> st.nodes[n] == NodeFlagsOf(c, labels, st.edges, n)
    requires forall e :: e in c.edges && e !in cl.edges ==> st'.edges[e] == st.edges[e]
    requires forall n :: n in c.nodes && n !in cl.nodes ==> st'.nodes[n] == st.nodes[n]
    ensures forall n :: n in c.nodes && n !in cl.nodes ==> st'.nodes[n] == NodeFlagsOf(c, labels', st'.edges, n)
  {
    forall n | n in c.nodes && n !in cl.nodes
      ensures st'.nodes[n] == NodeFlagsOf(c, labels', st'.edges, n)
    {
      forall e | e in LiveStarEdges(c, n) ensures st.edges[e] == st'.edges[e] {
        assert e !in cl.edges;
      }
      NodeRuleSameFlags(LiveStarEdges(c, n), st.edges, st'.edges,
                        ThreeComponents(c, labels, StarOfNode(c, n).tets));
      ThreeComponentsSameLabels(c, labels, labels', StarOfNode(c, n).tets);
    }
  }

  // ---------------------------------------------------------------------------
  // what the rules mean
  // ---------------------------------------------------------------------------

  /** The regions meeting at a face; outside the mesh counts as region 0. */
  ghost function SideLabels(ts: set<TetKey>, labels: map<TetKey, int>): set<int>
    requires ts <= labels.Keys
  {
    (set t | t in ts :: labels[t]) + (if |ts| == 1 then {0} else {})
  }

  lemma SingletonOf<T>(s: set<T>, x: T)
    requires |s| == 1 && x in s
    ensures s == {x}
  {
    SingletonElements(s);
  }

  lemma PairOf<T>(s: set<T>, x: T) returns (y: T)
    requires |s| == 2 && x in s
    ensures y != x && s == {x, y}
  {
    assert |s - {x}| == 1;
    y :| y in s - {x};
    SingletonOf(s - {x}, y);
    assert s == {x} + (s - {x});
  }

  lemma OneSide(ts: set<TetKey>, labels: map<TetKey, int>, t: TetKey)
    requires ts <= labels.Keys && ts == {t}
    ensures FaceRule(ts, labels).interface <==> labels[t] != 0
    ensures SideLabels(ts, labels) == {labels[t], 0}
  {
    assert (set x | x in ts :: labels[x]) == {labels[t]};
  }

  lemma TwoSides(ts: set<TetKey>, labels: map<TetKey, int>, t: TetKey, u: TetKey)
    requires ts <= labels.Keys && ts == {t, u} && t != u
    ensures FaceRule(ts, labels).interface <==> labels[t] != labels[u]
    ensures SideLabels(ts, labels) == {labels[t], labels[u]}
  {
    assert |ts| == 2;
    assert (set x | x in ts :: labels[x]) == {labels[t], labels[u]};
  }

  /** A face whose two sides lie in different regions, and only such a face, is interface. */
  lemma InterfaceSeparatesRegions(ts: set<TetKey>, labels: map<TetKey, int>)
    requires ts <= labels.Keys && 1 <= |ts| <= 2
    ensures FaceRule(ts, labels).interface <==> |SideLabels(ts, labels)| == 2
  {
    var t :| t in ts;
    if |ts| == 1 {
      SingletonOf(ts, t);
      OneSide(ts, labels, t);
    } else {
      var u := PairOf(ts, t);
      TwoSides(ts, labels, t, u);
    }
  }

  /** An edge with more than two interface faces around it is itself interface. */
  lemma EdgeCrossingIsInterface(fs: set<FaceKey>, faceFlags: map<FaceKey, FaceFlags>)
    requires fs <= faceFlags.Keys
    ensures EdgeRule(fs, faceFlags).crossing ==> EdgeRule(fs, faceFlags).interface
  {
    var ifs := InterfaceFaces(fs, faceFlags);
    if |ifs| > 2 {
      var f :| f in ifs;
    }
  }

  /**
   * The precondition of `flip_32`: when an edge whose flags are current is
   * neither interface nor boundary, every face around it has two tetrahedra
   * (or none, or more than two) and the tetrahedra of a face with two carry one
   * label.
   */
  lemma InteriorEdgeFacesAreInterior(c: Complex, labels: map<TetKey, int>, st: FlagState, e: EdgeKey)
    requires FacesTetsLinked(c) && Covers(c, labels, st)
    requires CurrentOn(c, labels, st, SimplexSet({}, {e}, LiveStarFaces(c, e), {})) && e in c.edges
    requires !st.edges[e].interface && !st.edges[e].boundary
    ensures forall f :: f in LiveStarFaces(c, e) ==>
      var ts := StarOfFace(c, f).tets;
      ts <= labels.Keys && |ts| != 1 &&
      (|ts| == 2 ==> forall t0, t1 :: t0 in ts && t1 in ts ==> labels[t0] == labels[t1])
  {
    forall f | f in LiveStarFaces(c, e)
      ensures var ts := StarOfFace(c, f).tets;
        ts <= labels.Keys && |ts| != 1 &&
        (|ts| == 2 ==> forall t0, t1 :: t0 in ts && t1 in ts ==> labels[t0] == labels[t1])
    {
      StarTetsLive(c, f);
      assert !st.faces[f].boundary && !st.faces[f].interface;
    }
  }

  /**
   * On a complex with at most two tetrahedra per face, where every face around
   * the edge has a tetrahedron, each of those faces has exactly two, of one label.
   */
  lemma InteriorEdgeFacesHaveTwo(c: Complex, labels: map<TetKey, int>, st: FlagState, e: EdgeKey)
    requires FacesTetsLinked(c) && Manifold(c) && Covers(c, labels, st)
    requires CurrentOn(c, labels, st, SimplexSet({}, {e}, LiveStarFaces(c, e), {})) && e in c.edges
    requires !st.edges[e].interface && !st.edges[e].boundary
    requires forall f :: f in LiveStarFaces(c, e) ==> StarOfFace(c, f).tets != {}
    ensures forall f :: f in LiveStarFaces(c, e) ==>
      var ts := StarOfFace(c, f).tets;
      ts <= labels.Keys && |ts| == 2 && forall t0, t1 :: t0 in ts && t1 in ts ==> labels[t0] == labels[t1]
  {
    InteriorEdgeFacesAreInterior(c, labels, st, e);
    forall f | f in LiveStarFaces(c, e) ensures |StarOfFace(c, f).tets| <= 2 {
      FaceStarAtMostTwo(c, f);
    }
  }

  /** At most two tetrahedra per face: a face's star holds at most two. */
  lemma FaceStarAtMostTwo(c: Complex, f: FaceKey)
    requires Manifold(c)
    ensures |StarOfFace(c, f).tets| <= 2
  {
    var ts := StarOfFace(c, f).tets;
    FaceStarIsCoTets(c, f);
    forall x, y, z | x in ts && y in ts && z in ts ensures x == y || x == z || y == z {
      assert x in c.faces[f].coTets && y in c.faces[f].coTets && z in c.faces[f].coTets;
    }
    SetAtMostTwo(ts);
  }

  /** A node around which at least three regions meet, on an interface edge, is crossing. */
  lemma ThreeRegionsMakeCrossing(c: Complex, labels: map<TetKey, int>, edgeFlags: map<EdgeKey, Flags>, n: NodeKey, e: EdgeKey)
    requires c.edges.Keys <= edgeFlags.Keys
    requires e in LiveStarEdges(c, n) && edgeFlags[e].interface
    requires ThreeComponents(c, labels, StarOfNode(c, n).tets)
    ensures NodeFlagsOf(c, labels, edgeFlags, n).interface && NodeFlagsOf(c, labels, edgeFlags, n).crossing
  {
  }
}
