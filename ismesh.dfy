/**
 * The mesh interface object: the complex held by the kernel, a label per
 * tetrahedron and the boundary / interface / crossing flags per face, edge
 * and node, updated in place by the methods below.
 */
module IsMesh {
  import opened Keys
  import opened Incidence
  import opened Regions
  import opened FlagRules
  import opened KeyVectors
  import opened Surgery
  import opened Operators
  import opened Assembly
  import opened Validity

  /** The flags after the kernel's surgery: survivors keep theirs, created simplices start cleared. */
  ghost function Carried(st: FlagState, s: Surgery): FlagState
  {
    FlagState(Carry(st.faces, s.after.faces.Keys, s.created.faces, FaceFlags(false, false)),
              Carry(st.edges, s.after.edges.Keys, s.created.edges, Flags(false, false, false)),
              Carry(st.nodes, s.after.nodes.Keys, s.created.nodes, Flags(false, false, false)))
  }

  /** Flags that agree outside `r` still agree outside `r` once carried through a surgery. */
  lemma CarriedKeptOutside(st: FlagState, st': FlagState, r: SimplexSet, s: Surgery)
    requires KeptOutside(st, st', r)
    ensures KeptOutside(Carried(st, s), Carried(st', s), r)
  {
  }

  /**
   * What a split may change flags on: the closures of the tetrahedra it
   * relabels (each `set_label` updates one) and the star of the new node
   * with the node itself (the closing `update`).
   */
  function SplitRegion(c: Complex, n: NodeKey, relabelled: set<TetKey>): SimplexSet
  {
    Union(Closure(c, TetsSet(relabelled)), Union(StarOfNode(c, n), NodeSet(n)))
  }

  /** One `set_label(t)` more, for `t` among `ts`: the flags still differ from `st0` only within the closure of `ts`. */
  lemma KeptOutsideGrows(c: Complex, st0: FlagState, st: FlagState, st': FlagState, ts: set<TetKey>, t: TetKey)
    requires t in ts
    requires KeptOutside(st0, st, Closure(c, TetsSet(ts))) && KeptOutside(st, st', Closure(c, TetSet(t)))
    ensures KeptOutside(st0, st', Closure(c, TetsSet(ts)))
  {
    ClosureGrows(c, ts - {t}, t);
    assert ts - {t} + {t} == ts;
    KeptOutsideTrans(st0, st, st', Closure(c, TetsSet(ts)), Closure(c, TetSet(t)), Closure(c, TetsSet(ts)));
  }

  /**
   * What a flip leaves when it succeeds, from the labels `labels0` and flags
   * `st0` before it and the tetrahedra `around` the split simplex: the
   * collapse kept `node`; a tetrahedron the collapse created has label 0 and
   * any other has the label the split gave it; the flags of the closure of
   * `node`'s star follow the rules; and every other flag is the one before,
   * unless one of the two surgeries created its simplex or the split updated
   * it.
   */
  ghost predicate Flipped(labels0: map<TetKey, int>, st0: FlagState, around: set<TetKey>, split: Split,
                          collapse: Collapse, node: NodeKey, c: Complex, labels: map<TetKey, int>, st: FlagState)
  {
    collapse.Collapsed? && node == collapse.node && c == collapse.surgery.after &&
    (forall x :: x in c.tets ==>
       x in labels && labels[x] == if x in collapse.surgery.created.tets then 0 else SplitLabel(labels0, around, split, x)) &&
    FacesTetsLinked(c) && Covers(c, labels, st) && CurrentOn(c, labels, st, Closure(c, StarOfNode(c, node))) &&
    KeptOutside(Carried(Carried(st0, split.surgery), collapse.surgery), st,
                Union(SplitRegion(split.surgery.after, split.node, split.newTets.Keys), Closure(c, StarOfNode(c, node))))
  }

  /** The labels after a split (labels `labels1` afterwards) and a collapse that carries them over. */
  lemma FlipLabels(labels0: map<TetKey, int>, around: set<TetKey>, split: Split, collapse: Surgery,
                   labels1: map<TetKey, int>, labels: map<TetKey, int>)
    requires around <= labels0.Keys && labels1.Keys == split.surgery.after.tets.Keys
    requires split.newTets.Keys <= split.surgery.after.tets.Keys
    requires forall t :: t in split.newTets ==>
      labels1[t] == if split.newTets[t] in around then labels0[split.newTets[t]] else 0
    requires forall t :: t in split.surgery.after.tets && t !in split.newTets ==>
      labels1[t] == if t in labels0 && t !in split.surgery.created.tets then labels0[t] else 0
    requires collapse.after.tets.Keys - collapse.created.tets <= split.surgery.after.tets.Keys
    requires labels == Carry(labels1, collapse.after.tets.Keys, collapse.created.tets, 0)
    ensures forall x :: x in collapse.after.tets ==>
      x in labels && labels[x] == if x in collapse.created.tets then 0 else SplitLabel(labels0, around, split, x)
  {
    forall x | x in collapse.after.tets
      ensures x in labels && labels[x] == if x in collapse.created.tets then 0 else SplitLabel(labels0, around, split, x)
    {
      if x !in collapse.created.tets {
        assert x in labels1 && labels[x] == labels1[x];
      }
    }
  }

  /** A split (labels `labels1`, flags `st1` afterwards) followed by a collapse that keeps `node` leaves what `Flipped` says. */
  lemma FlipOutcome(labels0: map<TetKey, int>, st0: FlagState, around: set<TetKey>, split: Split, collapse: Collapse,
                    node: NodeKey, labels1: map<TetKey, int>, st1: FlagState, c: Complex, labels: map<TetKey, int>, st: FlagState)
    requires around <= labels0.Keys && labels1.Keys == split.surgery.after.tets.Keys
    requires split.newTets.Keys <= split.surgery.after.tets.Keys
    requires forall t :: t in split.newTets ==>
      labels1[t] == if split.newTets[t] in around then labels0[split.newTets[t]] else 0
    requires forall t :: t in split.surgery.after.tets && t !in split.newTets ==>
      labels1[t] == if t in labels0 && t !in split.surgery.created.tets then labels0[t] else 0
    requires KeptOutside(Carried(st0, split.surgery), st1, SplitRegion(split.surgery.after, split.node, split.newTets.Keys))
    requires CollapseFits(split.surgery.after, collapse) && collapse.Collapsed? && node == collapse.node
    requires c == collapse.surgery.after && labels == Carry(labels1, c.tets.Keys, collapse.surgery.created.tets, 0)
    requires FacesTetsLinked(c) && Covers(c, labels, st) && CurrentOn(c, labels, st, Closure(c, StarOfNode(c, node)))
    requires KeptOutside(Carried(st1, collapse.surgery), st, Closure(c, StarOfNode(c, node)))
    ensures Flipped(labels0, st0, around, split, collapse, node, c, labels, st)
  {
    FlipLabels(labels0, around, split, collapse.surgery, labels1, labels);
    var r1 := SplitRegion(split.surgery.after, split.node, split.newTets.Keys);
    var r2 := Closure(c, StarOfNode(c, node));
    CarriedKeptOutside(Carried(st0, split.surgery), st1, r1, collapse.surgery);
    KeptOutsideTrans(Carried(Carried(st0, split.surgery), collapse.surgery), Carried(st1, collapse.surgery), st,
                     r1, r2, Union(r1, r2));
  }

  class ISMesh {
    var mesh: Complex
    var labels: map<TetKey, int>
    var faceFlags: map<FaceKey, FaceFlags>
    var edgeFlags: map<EdgeKey, Flags>
    var nodeFlags: map<NodeKey, Flags>

    /** The kernel's links agree, and every live simplex carries its attributes. */
    ghost predicate Stored()
      reads this
    {
      Attributed(mesh, labels, faceFlags, edgeFlags, nodeFlags)
    }

    /** In addition, no face lies between more than two tetrahedra. */
    ghost predicate Valid()
      reads this
    {
      Stored() && Manifold(mesh)
    }

    /** What walking between tetrahedra needs: face/tetrahedron links, at most two tetrahedra per face, labels. */
    ghost predicate Walkable()
      reads this
    {
      FacesTetsLinked(mesh) && Manifold(mesh) && mesh.tets.Keys <= labels.Keys
    }

    ghost function State(): FlagState
      reads this
    {
      FlagState(faceFlags, edgeFlags, nodeFlags)
    }

    /** Every stored flag is what the rules give for the current complex and labels. */
    ghost predicate Current()
      reads this
      requires Stored()
    {
      CurrentOn(mesh, labels, State(), Everything(mesh))
    }

    constructor (c: Complex, ls: map<TetKey, int>)
      requires Linked(c) && Manifold(c) && ls.Keys == c.tets.Keys
      ensures Valid() && Current() && mesh == c && labels == ls
    {
      mesh := c;
      labels := ls;
      faceFlags := map f | f in c.faces :: FaceFlags(false, false);
      edgeFlags := map e | e in c.edges :: Flags(false, false, false);
      nodeFlags := map n | n in c.nodes :: Flags(false, false, false);
      new;
      Init();
    }

    // -------------------------------------------------------------------------
    // update_flag
    // -------------------------------------------------------------------------

    /** The flags `update_flag(face)` computes: from the tetrahedra around the face. */
    method FaceFlagsAt(f: FaceKey) returns (r: FaceFlags)
      requires f in mesh.faces && FacesTetsLinked(mesh) && mesh.tets.Keys <= labels.Keys
      ensures r == FaceFlagsOf(mesh, labels, f)
    {
      var interface, boundary := false, false;
      var ts := StarOfFace(mesh, f).tets;
      StarTetsLive(mesh, f);
      if |ts| == 1 {
        boundary := true;
        var t :| t in ts;
        SingletonOf(ts, t);
        if labels[t] != 0 {
          interface := true;
        }
      } else if |ts| == 2 {
        var t0 :| t0 in ts;
        ghost var other := PairOf(ts, t0);
        assert other in ts - {t0};
        var t1 :| t1 in ts - {t0};
        if labels[t0] != labels[t1] {
          interface := true;
        }
      }
      r := FaceFlags(boundary, interface);
    }

    /** `update_flag(face)`: clear both flags, then set them from the tetrahedra around the face. */
    method UpdateFaceFlag(f: FaceKey)
      requires f in mesh.faces && FacesTetsLinked(mesh) && mesh.tets.Keys <= labels.Keys
      modifies this
      ensures mesh == old(mesh) && labels == old(labels)
      ensures faceFlags == old(faceFlags)[f := FaceFlagsOf(mesh, labels, f)]
      ensures edgeFlags == old(edgeFlags) && nodeFlags == old(nodeFlags)
    {
      var r := FaceFlagsAt(f);
      faceFlags := faceFlags[f := r];
    }

    /** The flags `update_flag(edge)` computes: OR over the existing faces around the edge, counting the interface ones. */
    method EdgeFlagsAt(e: EdgeKey) returns (r: Flags)
      requires e in mesh.edges && mesh.faces.Keys <= faceFlags.Keys
      ensures r == EdgeFlagsOf(mesh, faceFlags, e)
    {
      var c, ff := mesh, faceFlags;
      var boundary, interface, crossing := false, false, false;
      var star := StarOfEdge(c, e).faces;
      var todo := star;
      ghost var live: set<FaceKey> := {};
      var i := 0;
      while todo != {}
        invariant todo <= star && live <= c.faces.Keys
        invariant forall h :: h in live <==> h in star && h !in todo && h in c.faces
        invariant boundary <==> exists g :: g in live && ff[g].boundary
        invariant interface <==> exists g :: g in live && ff[g].interface
        invariant i == |InterfaceFaces(live, ff)|
        decreases |todo|
      {
        var g :| g in todo;
        todo := todo - {g};
        if g in c.faces {
          if ff[g].boundary {
            boundary := true;
          }
          if ff[g].interface {
            interface := true;
            i := i + 1;
          }
          InterfaceFacesAdd(live, g, ff);
          live := live + {g};
        }
      }
      if i > 2 {
        crossing := true;
      }
      assert live == LiveStarFaces(c, e);
      r := Flags(boundary, interface, crossing);
    }

    /** `update_flag(edge)`. */
    method UpdateEdgeFlag(e: EdgeKey)
      requires e in mesh.edges && mesh.faces.Keys <= faceFlags.Keys
      modifies this
      ensures mesh == old(mesh) && labels == old(labels)
      ensures faceFlags == old(faceFlags) && nodeFlags == old(nodeFlags)
      ensures edgeFlags == old(edgeFlags)[e := EdgeFlagsOf(mesh, faceFlags, e)]
    {
      var r := EdgeFlagsAt(e);
      edgeFlags := edgeFlags[e := r];
    }

    /**
     * The flags `update_flag(node)` computes: OR over the existing edges
     * around the node; an interface node that is not crossing yet asks
     * `crossing` whether three regions meet around it.
     */
    method NodeFlagsAt(n: NodeKey) returns (r: Flags)
      requires n in mesh.nodes && mesh.edges.Keys <= edgeFlags.Keys && Walkable()
      ensures r == NodeFlagsOf(mesh, labels, edgeFlags, n)
    {
      var c, ef := mesh, edgeFlags;
      var boundary, interface, crossing := false, false, false;
      var star := StarOfNode(c, n).edges;
      var todo := star;
      ghost var live: set<EdgeKey> := {};
      while todo != {}
        invariant todo <= star && live <= c.edges.Keys
        invariant forall e :: e in live <==> e in star && e !in todo && e in c.edges
        invariant boundary <==> exists e :: e in live && ef[e].boundary
        invariant interface <==> exists e :: e in live && ef[e].interface
        invariant crossing <==> exists e :: e in live && ef[e].crossing
        decreases |todo|
      {
        var e :| e in todo;
        todo := todo - {e};
        if e in c.edges {
          if ef[e].interface {
            interface := true;
          }
          if ef[e].boundary {
            boundary := true;
          }
          if ef[e].crossing {
            crossing := true;
          }
          live := live + {e};
        }
      }
      assert live == LiveStarEdges(c, n);
      NodeFlagsOfIs(c, labels, ef, n, boundary, interface, crossing);
      if !crossing && interface {
        var three := Crossing(n);
        if three {
          crossing := true;
        }
      }
      r := Flags(boundary, interface, crossing);
    }

    /** `update_flag(node)`. */
    method UpdateNodeFlag(n: NodeKey)
      requires n in mesh.nodes && mesh.edges.Keys <= edgeFlags.Keys && Walkable()
      modifies this
      ensures mesh == old(mesh) && labels == old(labels)
      ensures faceFlags == old(faceFlags) && edgeFlags == old(edgeFlags)
      ensures nodeFlags == old(nodeFlags)[n := NodeFlagsOf(mesh, labels, edgeFlags, n)]
    {
      var r := NodeFlagsAt(n);
      nodeFlags := nodeFlags[n := r];
    }

    // -------------------------------------------------------------------------
    // label-connected regions around a node
    // -------------------------------------------------------------------------

    /**
     * `connected_component(st_n, t)`: erase `t` from `s`, then walk through
     * each face of `t` to the tetrahedron on the other side and, when it is
     * still in the set and carries `t`'s label, erase its region too.
     */
    method ConnectedComponent(s: set<TetKey>, t: TetKey) returns (s': set<TetKey>)
      requires t in mesh.tets && s <= mesh.tets.Keys && mesh.tets.Keys <= labels.Keys
      ensures Peeled(mesh, labels, s, t, s')
    {
      s' := Peel(mesh, labels, s, t);
    }

    /**
     * `crossing(n)`: peel label-connected regions off the tetrahedra around
     * `n` one at a time; true as soon as a third one would be needed.
     */
    method Crossing(n: NodeKey) returns (r: bool)
      requires Walkable()
      ensures r <==> ThreeComponents(mesh, labels, StarOfNode(mesh, n).tets)
    {
      r := Crossed(mesh, labels, n);
    }

    // -------------------------------------------------------------------------
    // update, init, set_label
    // -------------------------------------------------------------------------

    /** The face pass of `update`: each face of `fs` that exists gets its flags recomputed. */
    method UpdateFaces(fs: set<FaceKey>)
      requires FacesTetsLinked(mesh) && mesh.tets.Keys <= labels.Keys && mesh.faces.Keys <= faceFlags.Keys
      modifies this
      ensures mesh == old(mesh) && labels == old(labels)
      ensures edgeFlags == old(edgeFlags) && nodeFlags == old(nodeFlags)
      ensures faceFlags == FacesUpdated(mesh, labels, old(faceFlags), fs) && faceFlags.Keys == old(faceFlags).Keys
    {
      ghost var c, ls, ff := mesh, labels, faceFlags;
      var todo := fs;
      while todo != {}
        invariant mesh == c && labels == ls && todo <= fs
        invariant edgeFlags == old(edgeFlags) && nodeFlags == old(nodeFlags)
        invariant faceFlags == FacesUpdated(c, ls, ff, fs - todo) && faceFlags.Keys == ff.Keys
        decreases |todo|
      {
        var f :| f in todo;
        FacesUpdatedStep(c, ls, ff, fs - todo, f);
        if f in mesh.faces {
          UpdateFaceFlag(f);
        }
        DoneStep(fs, todo, f);
        todo := todo - {f};
      }
      assert fs - todo == fs;
    }

    /** The edge pass of `update`. */
    method UpdateEdges(es: set<EdgeKey>)
      requires mesh.faces.Keys <= faceFlags.Keys && mesh.edges.Keys <= edgeFlags.Keys
      modifies this
      ensures mesh == old(mesh) && labels == old(labels)
      ensures faceFlags == old(faceFlags) && nodeFlags == old(nodeFlags)
      ensures edgeFlags == EdgesUpdated(mesh, faceFlags, old(edgeFlags), es) && edgeFlags.Keys == old(edgeFlags).Keys
    {
      ghost var c, ff, ef := mesh, faceFlags, edgeFlags;
      var todo := es;
      while todo != {}
        invariant mesh == c && labels == old(labels) && todo <= es
        invariant faceFlags == ff && nodeFlags == old(nodeFlags)
        invariant edgeFlags == EdgesUpdated(c, ff, ef, es - todo) && edgeFlags.Keys == ef.Keys
        decreases |todo|
      {
        var e :| e in todo;
        EdgesUpdatedStep(c, ff, ef, es - todo, e);
        if e in mesh.edges {
          UpdateEdgeFlag(e);
        }
        DoneStep(es, todo, e);
        todo := todo - {e};
      }
      assert es - todo == es;
    }

    /** The node pass of `update`. */
    method UpdateNodes(ns: set<NodeKey>)
      requires Walkable() && mesh.edges.Keys <= edgeFlags.Keys && mesh.nodes.Keys <= nodeFlags.Keys
      modifies this
      ensures mesh == old(mesh) && labels == old(labels)
      ensures faceFlags == old(faceFlags) && edgeFlags == old(edgeFlags)
      ensures nodeFlags == NodesUpdated(mesh, labels, edgeFlags, old(nodeFlags), ns) && nodeFlags.Keys == old(nodeFlags).Keys
    {
      ghost var c, ls, ef, nf := mesh, labels, edgeFlags, nodeFlags;
      var todo := ns;
      while todo != {}
        invariant mesh == c && labels == ls && todo <= ns
        invariant faceFlags == old(faceFlags) && edgeFlags == ef
        invariant nodeFlags == NodesUpdated(c, ls, ef, nf, ns - todo) && nodeFlags.Keys == nf.Keys
        decreases |todo|
      {
        var n :| n in todo;
        NodesUpdatedStep(c, ls, ef, nf, ns - todo, n);
        if n in mesh.nodes {
          UpdateNodeFlag(n);
        }
        DoneStep(ns, todo, n);
        todo := todo - {n};
      }
      assert ns - todo == ns;
    }

    /** `update(set)`: the faces of the set that exist, then its edges, then its nodes. */
    method Update(s: SimplexSet)
      requires Valid()
      modifies this
      ensures Valid() && mesh == old(mesh) && labels == old(labels)
      ensures State() == Updated(mesh, labels, old(State()), s)
    {
      UpdateFaces(s.faces);
      UpdateEdges(s.edges);
      UpdateNodes(s.nodes);
    }

    /** `init`: update the flags of every face, then every edge, then every node. */
    method Init()
      requires Valid()
      modifies this
      ensures Valid() && Current() && mesh == old(mesh) && labels == old(labels)
    {
      Update(Everything(mesh));
      InitMakesCurrent(mesh, labels, old(State()));
    }

    /** `set_label(t, l)`: relabel `t` and update the flags of its closure. */
    method SetLabel(t: TetKey, l: int)
      requires Valid() && t in mesh.tets
      modifies this
      ensures Valid() && mesh == old(mesh) && labels == old(labels)[t := l]
      ensures State() == Updated(mesh, labels, old(State()), Closure(mesh, TetSet(t)))
      ensures old(Current()) ==> Current()
    {
      ghost var wasCurrent := Current();
      Relabel(t, l);
      if wasCurrent {
        SetLabelKeepsFlagsCurrent(mesh, old(labels), old(State()), t, l);
      }
    }

    /** The state change of `set_label(t, l)`: only the flags of the closure of `t` are recomputed. */
    method Relabel(t: TetKey, l: int)
      requires Valid() && t in mesh.tets
      modifies this
      ensures Valid() && mesh == old(mesh) && labels == old(labels)[t := l]
      ensures State() == Updated(mesh, labels, old(State()), Closure(mesh, TetSet(t)))
      ensures KeptOutside(old(State()), State(), Closure(mesh, TetSet(t)))
    {
      labels := labels[t := l];
      Update(Closure(mesh, TetSet(t)));
      UpdatedKeptOutside(mesh, labels, old(State()), Closure(mesh, TetSet(t)));
    }

    // -------------------------------------------------------------------------
    // Euler operators: the label and flag bookkeeping around the kernel's surgery
    // -------------------------------------------------------------------------

    /** The kernel's surgery: survivors keep their attributes, created simplices get the defaults. */
    method Adopt(s: Surgery)
      requires Fits(mesh, s)
      modifies this
      ensures Valid() && mesh == s.after
      ensures labels == Carry(old(labels), s.after.tets.Keys, s.created.tets, 0)
      ensures State() == Carried(old(State()), s)
    {
      mesh := s.after;
      labels := Carry(labels, s.after.tets.Keys, s.created.tets, 0);
      faceFlags := Carry(faceFlags, s.after.faces.Keys, s.created.faces, FaceFlags(false, false));
      edgeFlags := Carry(edgeFlags, s.after.edges.Keys, s.created.edges, Flags(false, false, false));
      nodeFlags := Carry(nodeFlags, s.after.nodes.Keys, s.created.nodes, Flags(false, false, false));
    }

    /** The labels of the tetrahedra around a simplex, recorded before the split (`tt`). */
    method RecordLabels(ts: set<TetKey>) returns (tt: map<TetKey, int>)
      requires ts <= labels.Keys
      ensures tt.Keys == ts && forall t :: t in ts ==> tt[t] == labels[t]
    {
      tt := map t | t in ts :: labels[t];
    }

    /** The `set_label` loop of `split(edge)` / `split(face)`: each new tetrahedron gets its parent's recorded label. */
    method InheritLabels(tt: map<TetKey, int>, newTets: map<TetKey, TetKey>)
      requires Valid() && newTets.Keys <= mesh.tets.Keys
      modifies this
      ensures Valid() && mesh == old(mesh)
      ensures labels == Inherited(old(labels), tt, newTets, newTets.Keys)
      ensures KeptOutside(old(State()), State(), Closure(mesh, TetsSet(newTets.Keys)))
    {
      InheritedIsAssigned(labels, tt, newTets);
      LabelEach(newTets.Keys, ParentLabels(tt, newTets));
    }

    /** The `set_label` loop of `split(tet)`: every tetrahedron of `ts` gets label `l`. */
    method LabelAll(ts: set<TetKey>, l: int)
      requires Valid() && ts <= mesh.tets.Keys
      modifies this
      ensures Valid() && mesh == old(mesh)
      ensures labels == Uniform(old(labels), l, ts)
      ensures KeptOutside(old(State()), State(), Closure(mesh, TetsSet(ts)))
    {
      UniformIsAssigned(labels, l, ts);
      LabelEach(ts, map t | t in ts :: l);
    }

    /** A `set_label` loop: each tetrahedron `t` of `ts` gets label `want[t]`, one at a time. */
    method LabelEach(ts: set<TetKey>, want: map<TetKey, int>)
      requires Valid() && ts <= mesh.tets.Keys && ts <= want.Keys
      modifies this
      ensures Valid() && mesh == old(mesh)
      ensures labels == Assigned(old(labels), want, ts)
      ensures KeptOutside(old(State()), State(), Closure(mesh, TetsSet(ts)))
    {
      ghost var st0 := State();
      var todo := ts;
      AssignedNone(labels, want);
      assert ts - todo == {};
      KeptOutsideRefl(st0, Closure(mesh, TetsSet(ts)));
      while todo != {}
        invariant Valid() && mesh == old(mesh) && todo <= ts
        invariant labels == Assigned(old(labels), want, ts - todo)
        invariant KeptOutside(st0, State(), Closure(mesh, TetsSet(ts)))
        decreases |todo|
      {
        var t :| t in todo;
        ghost var st := State();
        AssignedStep(old(labels), want, ts - todo, t);
        DoneStep(ts, todo, t);
        todo := todo - {t};
        Relabel(t, want[t]);
        KeptOutsideGrows(mesh, st0, st, State(), ts, t);
      }
      assert ts - todo == ts;
    }

    /** The closing `update` of a split: the new node's star and the node itself. */
    method UpdateAround(n: NodeKey)
      requires Valid()
      modifies this
      ensures Valid() && mesh == old(mesh) && labels == old(labels)
      ensures CurrentOn(mesh, labels, State(), Union(StarOfNode(mesh, n), NodeSet(n)))
      ensures KeptOutside(old(State()), State(), Union(StarOfNode(mesh, n), NodeSet(n)))
    {
      ghost var st := State();
      Update(Union(StarOfNode(mesh, n), NodeSet(n)));
      UpdatedIsCurrentOn(mesh, labels, st, Union(StarOfNode(mesh, n), NodeSet(n)));
      UpdatedKeptOutside(mesh, labels, st, Union(StarOfNode(mesh, n), NodeSet(n)));
    }

    /**
     * `split(edge)`: record the labels around `e`, let the kernel split it,
     * give each new tetrahedron its parent's label, update around the new node.
     */
    method SplitEdge(e: EdgeKey, k: Split) returns (n: NodeKey)
      requires Valid() && e in mesh.edges && SplitFits(mesh, k)
      modifies this
      ensures Valid() && n == k.node && mesh == k.surgery.after
      ensures forall t :: t in k.newTets ==>
        labels[t] == if k.newTets[t] in StarOfEdge(old(mesh), e).tets then old(labels)[k.newTets[t]] else 0
      ensures forall t :: t in mesh.tets && t !in k.newTets ==>
        labels[t] == if t in old(labels) && t !in k.surgery.created.tets then old(labels)[t] else 0
      ensures CurrentOn(mesh, labels, State(), Union(StarOfNode(mesh, n), NodeSet(n)))
      ensures KeptOutside(Carried(old(State()), k.surgery), State(), SplitRegion(mesh, n, k.newTets.Keys))
    {
      StarTetsOfEdgeLive(mesh, e);
      var tt := RecordLabels(StarOfEdge(mesh, e).tets);
      Adopt(k.surgery);
      n := k.node;
      ghost var st := State();
      InheritLabels(tt, k.newTets);
      ghost var st' := State();
      UpdateAround(n);
      KeptOutsideTrans(st, st', State(), Closure(mesh, TetsSet(k.newTets.Keys)), Union(StarOfNode(mesh, n), NodeSet(n)),
                       SplitRegion(mesh, n, k.newTets.Keys));
    }

    /** `split(face)`: as `split(edge)`, around a face. */
    method SplitFace(f: FaceKey, k: Split) returns (n: NodeKey)
      requires Valid() && f in mesh.faces && SplitFits(mesh, k)
      modifies this
      ensures Valid() && n == k.node && mesh == k.surgery.after
      ensures forall t :: t in k.newTets ==>
        labels[t] == if k.newTets[t] in StarOfFace(old(mesh), f).tets then old(labels)[k.newTets[t]] else 0
      ensures forall t :: t in mesh.tets && t !in k.newTets ==>
        labels[t] == if t in old(labels) && t !in k.surgery.created.tets then old(labels)[t] else 0
      ensures CurrentOn(mesh, labels, State(), Union(StarOfNode(mesh, n), NodeSet(n)))
      ensures KeptOutside(Carried(old(State()), k.surgery), State(), SplitRegion(mesh, n, k.newTets.Keys))
    {
      StarTetsLive(mesh, f);
      var tt := RecordLabels(StarOfFace(mesh, f).tets);
      Adopt(k.surgery);
      n := k.node;
      ghost var st := State();
      InheritLabels(tt, k.newTets);
      ghost var st' := State();
      UpdateAround(n);
      KeptOutsideTrans(st, st', State(), Closure(mesh, TetsSet(k.newTets.Keys)), Union(StarOfNode(mesh, n), NodeSet(n)),
                       SplitRegion(mesh, n, k.newTets.Keys));
    }

    /** `split(tet)`: every tetrahedron around the new node gets the label of the one split. */
    method SplitTet(t: TetKey, k: Split) returns (n: NodeKey)
      requires Valid() && t in mesh.tets && SplitFits(mesh, k)
      modifies this
      ensures Valid() && n == k.node && mesh == k.surgery.after && StarOfNode(mesh, n).tets <= labels.Keys
      ensures forall x :: x in StarOfNode(mesh, n).tets ==> labels[x] == old(labels)[t]
      ensures forall x :: x in mesh.tets && x !in StarOfNode(mesh, n).tets ==>
        labels[x] == if x in old(labels) && x !in k.surgery.created.tets then old(labels)[x] else 0
      ensures CurrentOn(mesh, labels, State(), Union(StarOfNode(mesh, n), NodeSet(n)))
      ensures KeptOutside(Carried(old(State()), k.surgery), State(), SplitRegion(mesh, n, StarOfNode(mesh, n).tets))
    {
      var l := labels[t];
      Adopt(k.surgery);
      n := k.node;
      StarTetsOfNodeLive(mesh, n);
      ghost var st := State();
      LabelAll(StarOfNode(mesh, n).tets, l);
      ghost var st' := State();
      UpdateAround(n);
      KeptOutsideTrans(st, st', State(), Closure(mesh, TetsSet(StarOfNode(mesh, n).tets)), Union(StarOfNode(mesh, n), NodeSet(n)),
                       SplitRegion(mesh, n, StarOfNode(mesh, n).tets));
    }

    /**
     * `collapse(e)`: when the kernel refuses, its invalid key is returned and
     * nothing else happens; otherwise the closure of the surviving node's star
     * is updated.
     */
    method Collapse(e: EdgeKey, k: Collapse) returns (n: Option<NodeKey>)
      requires Valid() && e in mesh.edges && CollapseFits(mesh, k)
      modifies this
      ensures Valid()
      ensures k.Refused? ==> n == None && mesh == old(mesh) && labels == old(labels) && State() == old(State())
      ensures k.Collapsed? ==> (n == Some(k.node) && mesh == k.surgery.after &&
        labels == Carry(old(labels), mesh.tets.Keys, k.surgery.created.tets, 0) &&
        CurrentOn(mesh, labels, State(), Closure(mesh, StarOfNode(mesh, k.node))) &&
        KeptOutside(Carried(old(State()), k.surgery), State(), Closure(mesh, StarOfNode(mesh, k.node))))
    {
      if k.Refused? {
        return None;
      }
      Adopt(k.surgery);
      ghost var st := State();
      var cl := Closure(mesh, StarOfNode(mesh, k.node));
      Update(cl);
      UpdatedIsCurrentOn(mesh, labels, st, cl);
      UpdatedKeptOutside(mesh, labels, st, cl);
      n := Some(k.node);
    }

    // -------------------------------------------------------------------------
    // flips: split, then collapse the new edge onto the chosen node
    // -------------------------------------------------------------------------

    /**
     * The tail shared by the flips: after the split produced `n2`, find the
     * edge from `n1` to it, collapse that edge, and check that `n1` survives.
     */
    method CollapseOnto(n1: NodeKey, n2: NodeKey, collapse: Collapse) returns (r: Result<NodeKey>)
      requires Valid() && CollapseFits(mesh, collapse)
      modifies this
      ensures Valid()
      ensures r.Success? <==> GetEdge(old(mesh), n1, n2).Some? && collapse.Collapsed? && collapse.node == n1
      ensures r.Success? ==> (r.value == n1 && mesh == collapse.surgery.after &&
        labels == Carry(old(labels), mesh.tets.Keys, collapse.surgery.created.tets, 0) &&
        CurrentOn(mesh, labels, State(), Closure(mesh, StarOfNode(mesh, n1))) &&
        KeptOutside(Carried(old(State()), collapse.surgery), State(), Closure(mesh, StarOfNode(mesh, n1))))
    {
      var e2 := GetEdge(mesh, n1, n2);
      if e2.None? {
        return Failure("no edge joins the chosen node and the new node");
      }
      StarEdgesLive(mesh, n1);
      var n3 := Collapse(e2.value, collapse);
      if n3.None? {
        return Failure("the collapse was refused");
      }
      if n3.value != n1 {
        return Failure("the collapse kept another node");
      }
      return Success(n3.value);
    }

    /** The tail of `flip_32` and `flip_44`: split `e`, then collapse the new edge onto `n1`. */
    method SplitEdgeOnto(e: EdgeKey, n1: NodeKey, split: Split, collapse: Collapse) returns (r: Result<NodeKey>)
      requires Valid() && e in mesh.edges && SplitFits(mesh, split) && CollapseFits(split.surgery.after, collapse)
      modifies this
      ensures Valid()
      ensures r.Success? ==> (r.value == n1 &&
        Flipped(old(labels), old(State()), StarOfEdge(old(mesh), e).tets, split, collapse, n1, mesh, labels, State()))
    {
      StarTetsOfEdgeLive(mesh, e);
      ghost var labels0, st0, around := labels, State(), StarOfEdge(mesh, e).tets;
      var n2 := SplitEdge(e, split);
      ghost var labels1, st1 := labels, State();
      r := CollapseOnto(n1, n2, collapse);
      if r.Success? {
        FlipOutcome(labels0, st0, around, split, collapse, n1, labels1, st1, mesh, labels, State());
      }
    }

    /** The tail of `flip_23`: split `f`, then collapse the new edge onto `n1`. */
    method SplitFaceOnto(f: FaceKey, n1: NodeKey, split: Split, collapse: Collapse) returns (r: Result<NodeKey>)
      requires Valid() && f in mesh.faces && SplitFits(mesh, split) && CollapseFits(split.surgery.after, collapse)
      modifies this
      ensures Valid()
      ensures r.Success? ==> (r.value == n1 &&
        Flipped(old(labels), old(State()), StarOfFace(old(mesh), f).tets, split, collapse, n1, mesh, labels, State()))
    {
      StarTetsLive(mesh, f);
      ghost var labels0, st0, around := labels, State(), StarOfFace(mesh, f).tets;
      var n2 := SplitFace(f, split);
      ghost var labels1, st1 := labels, State();
      r := CollapseOnto(n1, n2, collapse);
      if r.Success? {
        FlipOutcome(labels0, st0, around, split, collapse, n1, labels1, st1, mesh, labels, State());
      }
    }

    /** `flip_32(e)`: an interior, non-interface edge with three nodes in its link. */
    method Flip32(e: EdgeKey, split: Split, collapse: Collapse) returns (r: Result<NodeKey>)
      requires Valid() && e in mesh.edges && SplitFits(mesh, split) && CollapseFits(split.surgery.after, collapse)
      modifies this
      ensures Valid()
      ensures !Flip32Allowed(old(mesh), old(edgeFlags), e) ==>
        r.Failure? && mesh == old(mesh) && labels == old(labels) && State() == old(State())
      ensures r.Success? ==> (Flip32Allowed(old(mesh), old(edgeFlags), e) &&
        r.value in LinkOfEdge(old(mesh), e).nodes &&
        Flipped(old(labels), old(State()), StarOfEdge(old(mesh), e).tets, split, collapse, r.value, mesh, labels, State()))
    {
      if edgeFlags[e].interface || edgeFlags[e].boundary {
        return Failure("flip_32: the edge is interface or boundary");
      }
      var lk := LinkOfEdge(mesh, e);
      if |lk.nodes| != 3 {
        return Failure("flip_32: the link of the edge does not have three nodes");
      }
      var n1 :| n1 in lk.nodes;
      r := SplitEdgeOnto(e, n1, split, collapse);
    }

    /** `flip_23(f)`: an interior, non-interface face with two nodes in its link. */
    method Flip23(f: FaceKey, split: Split, collapse: Collapse) returns (r: Result<NodeKey>)
      requires Valid() && f in mesh.faces && SplitFits(mesh, split) && CollapseFits(split.surgery.after, collapse)
      modifies this
      ensures Valid()
      ensures !Flip23Allowed(old(mesh), old(faceFlags), f) ==>
        r.Failure? && mesh == old(mesh) && labels == old(labels) && State() == old(State())
      ensures r.Success? ==> (Flip23Allowed(old(mesh), old(faceFlags), f) &&
        r.value in LinkOfFace(old(mesh), f).nodes &&
        Flipped(old(labels), old(State()), StarOfFace(old(mesh), f).tets, split, collapse, r.value, mesh, labels, State()))
    {
      if faceFlags[f].interface || faceFlags[f].boundary {
        return Failure("flip_23: the face is interface or boundary");
      }
      var lk := LinkOfFace(mesh, f);
      if |lk.nodes| != 2 {
        return Failure("flip_23: the link of the face does not have two nodes");
      }
      var n1 :| n1 in lk.nodes;
      r := SplitFaceOnto(f, n1, split, collapse);
    }

    /**
     * `flip_44(f1, f2)`: two faces that agree on both flags; split their
     * shared edge and collapse onto the apex of `f1` opposite it.
     */
    method Flip44(f1: FaceKey, f2: FaceKey, split: Split, collapse: Collapse) returns (r: Result<NodeKey>)
      requires Valid() && f1 in mesh.faces && f2 in mesh.faces
      requires SplitFits(mesh, split) && CollapseFits(split.surgery.after, collapse)
      modifies this
      ensures Valid()
      ensures !Flip44Allowed(old(mesh), old(faceFlags), f1, f2) ==>
        r.Failure? && mesh == old(mesh) && labels == old(labels) && State() == old(State())
      ensures r.Success? ==> (Flip44Allowed(old(mesh), old(faceFlags), f1, f2) &&
        r.value == GetApex(old(mesh), f1, GetEdgeOfFaces(old(mesh), f1, f2).value).value &&
        Flipped(old(labels), old(State()), StarOfEdge(old(mesh), GetEdgeOfFaces(old(mesh), f1, f2).value).tets,
                split, collapse, r.value, mesh, labels, State()))
    {
      if faceFlags[f1].interface != faceFlags[f2].interface {
        return Failure("flip_44: only one of the faces is interface");
      }
      if faceFlags[f1].boundary != faceFlags[f2].boundary {
        return Failure("flip_44: only one of the faces is boundary");
      }
      var e1 := GetEdgeOfFaces(mesh, f1, f2);
      if e1.None? {
        return Failure("flip_44: the faces do not share exactly one edge");
      }
      var n1 := GetApex(mesh, f1, e1.value);
      if n1.None? {
        return Failure("flip_44: the face has no single apex opposite the edge");
      }
      FaceClosureEdgesLive(mesh, f1);
      r := SplitEdgeOnto(e1.value, n1.value, split, collapse);
    }
  
    // -------------------------------------------------------------------------
    // assembling new simplices: create_faces, insert_tetrahedron, create_tetrahedra
    // -------------------------------------------------------------------------

    /**
     * `insert_tetrahedron(f1, f2, f3, f4)`: a tetrahedron under a fresh key
     * with the four faces, each of which gains it as a co-face.
     */
    method InsertTetrahedron(f1: FaceKey, f2: FaceKey, f3: FaceKey, f4: FaceKey) returns (t: TetKey)
      requires Stored() && f1 in mesh.faces && f2 in mesh.faces && f3 in mesh.faces && f4 in mesh.faces
      modifies this`mesh, this`labels
      ensures t !in old(mesh.tets) && mesh == WithTet(old(mesh), t, [f1, f2, f3, f4])
      ensures labels == old(labels)[t := 0]
      ensures Stored()
    {
      var c;
      t, c := InsertTet(mesh, [f1, f2, f3, f4]);
      InsertKeepsAttributed(mesh, c, t, labels, 0, faceFlags, edgeFlags, nodeFlags);
      mesh, labels := c, labels[t := 0];
    }

    /**
     * `create_tetrahedron(interior, pool)`: a tetrahedron with label 0 under a
     * fresh key on the faces `TetFaces` finds, which leave the pool. When
     * those are not four faces (or the pool is empty) nothing changes.
     */
    method CreateTetrahedron(interior: seq<FaceKey>, pool: seq<FaceKey>) returns (r: Result<TetKey>, rest: seq<FaceKey>)
      requires Stored()
      requires forall f :: f in interior ==> f in mesh.faces
      requires forall f :: f in pool ==> f in mesh.faces
      modifies this`mesh, this`labels
      ensures multiset(rest) <= multiset(pool)
      ensures Created(old(mesh), interior, pool, r, rest, mesh)
      ensures labels == if r.Success? then old(labels)[r.value := 0] else old(labels)
      ensures Stored()
    {
      var c;
      r, rest, c := CreateTet(mesh, interior, pool);
      if r.Success? {
        InsertKeepsAttributed(mesh, c, r.value, labels, 0, faceFlags, edgeFlags, nodeFlags);
        mesh, labels := c, labels[r.value := 0];
      }
    }

    /**
     * `create_tetrahedra(interior, exterior)`: `(2 * |interior| + |exterior|) / 4`
     * tetrahedra made one after another from a copy of the exterior faces,
     * which they must use up. Each is fresh, has label 0 and four faces, and
     * every exterior face is a face of one of them.
     */
    method CreateTetrahedra(interior: seq<FaceKey>, exterior: seq<FaceKey>) returns (r: Result<seq<TetKey>>)
      requires Stored()
      requires forall f :: f in interior ==> f in mesh.faces
      requires forall f :: f in exterior ==> f in mesh.faces
      modifies this`mesh, this`labels
      ensures Stored()
      ensures (2 * |interior| + |exterior|) % 4 != 0 ==> r.Failure? && mesh == old(mesh) && labels == old(labels)
      ensures r.Success? ==> (|r.value| == (2 * |interior| + |exterior|) / 4 &&
        Grown(old(mesh), old(labels), mesh, labels, r.value) &&
        forall f :: f in exterior ==> f in FacesOf(mesh, r.value))
    {
      var c, ls;
      r, c, ls := CreateTets(mesh, labels, interior, exterior);
      GrowKeepsAttributed(mesh, c, labels, ls, faceFlags, edgeFlags, nodeFlags);
      mesh, labels := c, ls;
    }
  
    // -------------------------------------------------------------------------
    // validity_check
    // -------------------------------------------------------------------------

    /** `validity_check`: true iff every tetrahedron passes every check, that is, none of its assertions fails. */
    method ValidityCheck() returns (ok: bool)
      ensures ok <==> MeshChecked(mesh, faceFlags)
    {
      var todo := mesh.tets.Keys;
      while todo != {}
        invariant todo <= mesh.tets.Keys
        invariant forall t :: t in mesh.tets.Keys - todo ==> TetChecked(mesh, faceFlags, t)
        decreases |todo|
      {
        var t :| t in todo;
        if !TetChecked(mesh, faceFlags, t) {
          return false;
        }
        DoneStep(mesh.tets.Keys, todo, t);
        todo := todo - {t};
      }
      return true;
    }
  }
}
