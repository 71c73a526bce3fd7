/**
 * What the kernel's Euler-operator helpers (`split_edge_helper`,
 * `split_face_helper`, `split_tetrahedron`, `edge_collapse_helper`) leave
 * behind, as seen by the mesh interface: the complex afterwards, and which
 * of its keys are newly created. Simplices that survive keep their label and
 * flags (those live in the kernel's cells); created ones start from the
 * default attributes: label 0 and every flag false.
 */
module Surgery {
  import opened Keys
  import opened Incidence

  datatype Surgery = Surgery(after: Complex, created: SimplexSet)

  /** The result of splitting: the new node, the surgery, and each new tetrahedron's parent. */
  datatype Split = Split(node: NodeKey, surgery: Surgery, newTets: map<TetKey, TetKey>)

  /** The result of `edge_collapse_helper`: the invalid key (refused), or the surviving node. */
  datatype Collapse = Refused | Collapsed(node: NodeKey, surgery: Surgery)

  /**
   * A surgery the kernel can produce: its complex keeps the links and the
   * two-tetrahedra-per-face condition, created keys exist, and every other
   * key existed before.
   */
  ghost predicate Fits(before: Complex, s: Surgery)
  {
    Linked(s.after) && Manifold(s.after) &&
    s.created.nodes <= s.after.nodes.Keys && s.after.nodes.Keys - s.created.nodes <= before.nodes.Keys &&
    s.created.edges <= s.after.edges.Keys && s.after.edges.Keys - s.created.edges <= before.edges.Keys &&
    s.created.faces <= s.after.faces.Keys && s.after.faces.Keys - s.created.faces <= before.faces.Keys &&
    s.created.tets <= s.after.tets.Keys && s.after.tets.Keys - s.created.tets <= before.tets.Keys
  }

  ghost predicate SplitFits(before: Complex, k: Split)
  {
    Fits(before, k.surgery) && k.node in k.surgery.after.nodes && k.newTets.Keys <= k.surgery.after.tets.Keys
  }

  ghost predicate CollapseFits(before: Complex, k: Collapse)
  {
    k.Collapsed? ==> Fits(before, k.surgery) && k.node in k.surgery.after.nodes
  }

  /** The attribute of each key after surgery: carried over when it survives, `fallback` when created. */
  function Carry<K, V>(prior: map<K, V>, keys: set<K>, created: set<K>, fallback: V): (r: map<K, V>)
    ensures r.Keys == keys
    ensures forall k :: k in keys && k in prior && k !in created ==> r[k] == prior[k]
    ensures forall k :: k in keys && (k !in prior || k in created) ==> r[k] == fallback
  {
    map k | k in keys :: if k in prior && k !in created then prior[k] else fallback
  }

  /**
   * `tt[parent]` in `split`: the label recorded for the parent when the
   * parent was around the split simplex, and otherwise the 0 that a lookup
   * of a missing key inserts.
   */
  function ParentLabel(tt: map<TetKey, int>, parent: TetKey): (l: int)
    ensures parent in tt ==> l == tt[parent]
    ensures parent !in tt ==> l == 0
  {
    if parent in tt then tt[parent] else 0
  }

  /**
   * The label `split(edge)` / `split(face)` leaves on tetrahedron `t` of the
   * split complex, from the labels before and the tetrahedra `around` the
   * split simplex: a new tetrahedron takes its parent's label when the parent
   * was around, and 0 otherwise; any other keeps its label unless created.
   */
  ghost function SplitLabel(labels: map<TetKey, int>, around: set<TetKey>, k: Split, t: TetKey): int
  {
    if t in k.newTets then (if k.newTets[t] in around && k.newTets[t] in labels then labels[k.newTets[t]] else 0)
    else if t in labels && t !in k.surgery.created.tets then labels[t] else 0
  }

  /** The labels after the `split(edge)` / `split(face)` loop has handled the new tetrahedra in `done`. */
  function Inherited(labels: map<TetKey, int>, tt: map<TetKey, int>, newTets: map<TetKey, TetKey>,
                     done: set<TetKey>): map<TetKey, int>
  {
    map t | t in labels :: if t in done && t in newTets then ParentLabel(tt, newTets[t]) else labels[t]
  }

  /** The labels after a `set_label` loop has given each tetrahedron of `done` its wanted label `want[t]`. */
  function Assigned(labels: map<TetKey, int>, want: map<TetKey, int>, done: set<TetKey>): map<TetKey, int>
  {
    map t | t in labels :: if t in done && t in want then want[t] else labels[t]
  }

  lemma AssignedStep(labels: map<TetKey, int>, want: map<TetKey, int>, done: set<TetKey>, t: TetKey)
    requires t in labels && t in want
    ensures Assigned(labels, want, done + {t}) == Assigned(labels, want, done)[t := want[t]]
  {
  }

  lemma AssignedNone(labels: map<TetKey, int>, want: map<TetKey, int>)
    ensures Assigned(labels, want, {}) == labels
  {
  }

  /** The labels after the `split(tet)` loop has given label `l` to the tetrahedra in `done`. */
  function Uniform(labels: map<TetKey, int>, l: int, done: set<TetKey>): map<TetKey, int>
  {
    map t | t in labels :: if t in done then l else labels[t]
  }

  /** The label each new tetrahedron of a `split(edge)` / `split(face)` is to get. */
  function ParentLabels(tt: map<TetKey, int>, newTets: map<TetKey, TetKey>): map<TetKey, int>
  {
    map t | t in newTets :: ParentLabel(tt, newTets[t])
  }

  lemma InheritedIsAssigned(labels: map<TetKey, int>, tt: map<TetKey, int>, newTets: map<TetKey, TetKey>)
    ensures Inherited(labels, tt, newTets, newTets.Keys) == Assigned(labels, ParentLabels(tt, newTets), newTets.Keys)
  {
  }

  lemma UniformIsAssigned(labels: map<TetKey, int>, l: int, ts: set<TetKey>)
    ensures Uniform(labels, l, ts) == Assigned(labels, map t | t in ts :: l, ts)
  {
  }
}
