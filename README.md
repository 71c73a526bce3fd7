# ISMesh: the mesh interface of DSC, modelled in Dafny

DSC (deformable simplicial complexes) keeps a tetrahedral mesh whose
tetrahedra carry integer region labels. `is_mesh/is_mesh_API.h` declares the
interface object `ISMesh`. It does the following:

- It stores a label on every tetrahedron.
- It stores boundary / interface flags on every face and boundary / interface /
  crossing flags on every edge and node. It recomputes these flags from the
  current neighbourhood: faces first, then edges, then nodes.
- It finds a node's label-connected regions to decide whether three regions
  meet there.
- It wraps the kernel's Euler operators (split, collapse, the flips). It
  assembles new faces and tetrahedra by greedy `is_neighbour` grouping.
- It can audit the whole complex (`validity_check`).

`src/util.h` adds `sign`, the order `compare` puts on boolean vectors, and the
zero-padded naming `concat4digits`.

The model works as follows:

- The kernel's complex is a value `Incidence.Complex`. It has one map per
  simplex kind from key to cell, holding the down-links (an edge's nodes, a
  face's edges, a tetrahedron's faces) and the up-links (co-edges, co-faces,
  co-tetrahedra).
- `simplex_set` is four Dafny sets.
- Star, closure and link are functions on the complex.
- `ISMesh` is a class whose fields are the complex, the label map and the
  three flag maps. The methods that change them in the source change them
  here.
- The flag rules are specification functions in `FlagRules`. What `update`
  computes is the function `Updated`.
- Region connectivity is the reachability relation `Regions.Reach`, along
  same-label steps through shared faces.
- Kernel surgery (the split and collapse helpers) is a parameter that
  describes the resulting complex and the keys it created. The interface
  methods then do what the source does around the surgery: they record and
  hand on labels, and they refresh flags.

Modules:

- `Keys`: key types, `Option`, `Result`.
- `Util`: the `util.h` functions.
- `KeyVectors`: `uni`, `difference`, `intersection`, `is_neighbour`.
- `Incidence`: the complex, its links, the stars and closures, and the `get_*`
  lookups.
- `Regions`: label-connected regions, `connected_component`, `crossing`.
- `FlagRules`: the flag rules and what `update` achieves.
- `Surgery`: what the kernel's surgery helpers leave behind.
- `Operators`: the preconditions of the flips.
- `Assembly`: `create_faces`, `create_tetrahedron`, `create_tetrahedra`,
  `insert_tetrahedron`, on values.
- `Validity`: the `validity_check` clauses.
- `IsMesh`: the class `ISMesh`.

Two facts about the code shape the flag model:

- `FlagRules.FaceRule` follows is_mesh_API.h:194-221: a boundary face is
  interface when its single tetrahedron carries a non-zero label, and a face
  between two tetrahedra is interface when their labels differ.
- `validity_check` (is_mesh_API.h:1346-1394) checks only the boundary flag,
  against the number of co-tetrahedra. `Validity.TetChecked` states exactly
  those clauses.

## Model

| member | source | states |
|---|---|---|
| Util.Sign | src/util.h:39-43 | the result is 1, 0 or -1 exactly when the value is positive, zero or negative |
| Util.SignOfProduct | src/util.h:39-43 | the sign of a product is the product of the signs |
| Util.SignTimesAbs | src/util.h:39-43 | the sign times the magnitude gives the value back |
| Util.Compare | src/util.h:578-586 | returns true iff, at the first position below `n` where the vectors differ, `v1` is false and `v2` true (a lexicographic order, false before true) |
| Util.LexLessIrreflexive | src/util.h:578-586 | no vector compares smaller than itself |
| Util.LexLessAsymmetric | src/util.h:578-586 | two vectors are never each smaller than the other |
| Util.LexLessTransitive | src/util.h:578-586 | the order is transitive |
| Util.LexLessTotal | src/util.h:578-586 | two vectors that differ in the first `n` positions are ordered one way or the other |
| Util.LexLessIgnoresTail | src/util.h:578-586 | only the first `n` positions matter |
| Util.Concat4Digits | src/util.h:593-605 | the name is kept as a prefix and something follows it |
| Util.Concat4DigitsFourDigits | src/util.h:593-605 | for 0..9999 the suffix is exactly four digits reading back as the number |
| Util.Concat4DigitsInjective | src/util.h:593-605 | different numbers in 0..9999 give different names |
| Util.Concat4DigitsNoPadding | src/util.h:593-605 | from 1000 on the number is written unpadded, with no leading zero |
| Util.Concat4DigitsNegative | src/util.h:593-605 | a negative number gets "000" before its minus sign |
| Util.NatToDecimalRoundTrip | src/util.h:593-605 | the decimal rendering a stream writes is all digits and reads back as the number |
| KeyVectors.Uni | is_mesh/is_mesh_API.h:905-922 | the result holds each key of either list exactly once, in first-occurrence order of the concatenation |
| KeyVectors.UniFirstOccurrenceOrder | is_mesh/is_mesh_API.h:905-922 | keys of the union appear in the order of their first occurrence in `keys1 + keys2` |
| KeyVectors.Difference | is_mesh/is_mesh_API.h:885-903 | the result is the keys of `keys1` not in `keys2`, then those of `keys2` not in `keys1`: a key is in it iff it is in exactly one list |
| KeyVectors.Intersection | is_mesh/is_mesh_API.h:924-935 | the result keeps the keys of `keys1` found in `keys2`, in order, with every copy |
| KeyVectors.KeepInConcat | is_mesh/is_mesh_API.h:924-935 | filtering distributes over concatenation, so the order of `keys1` is kept |
| KeyVectors.IsNeighbour | is_mesh/is_mesh_API.h:937-949 | true iff the two boundaries share a key |
| KeyVectors.IsNeighbourOfAll | is_mesh/is_mesh_API.h:952-969 | true iff the number of positions of the key's boundary that lie on some boundary of `keys` equals the number of keys |
| KeyVectors.OnSome | is_mesh/is_mesh_API.h:957-965 | the inner search is true iff the key lies on one of the boundaries |
| KeyVectors.NeighbourOfOne | is_mesh/is_mesh_API.h:952-969 | against a single key the test holds iff exactly one position of the boundary is shared |
| Incidence.GetEdge | is_mesh/is_mesh_API.h:436-448 | `Some(e)` iff the two nodes' stars share exactly one edge, and then `e` is that edge |
| Incidence.GetEdgeJoins | is_mesh/is_mesh_API.h:436-448 | on a linked complex, `get_edge(n1, n2)` finds `e` iff `e` is the only edge with both nodes |
| Incidence.GetEdgeOfFaces | is_mesh/is_mesh_API.h:450-462 | `Some(e)` iff the two faces' closures share exactly one edge, and then `e` is it |
| Incidence.GetEdgeOfFacesInStar | is_mesh/is_mesh_API.h:450-462 | the edge found has both faces in its star |
| Incidence.GetFace | is_mesh/is_mesh_API.h:496-511 | `Some(f)` iff the three nodes' stars share exactly one face, and then `f` is it |
| Incidence.GetFaceSpans | is_mesh/is_mesh_API.h:496-511 | on a linked complex the faces searched are exactly those whose closure holds all three nodes |
| Incidence.GetFaceOfTets | is_mesh/is_mesh_API.h:513-525 | `Some(f)` iff the two tetrahedra's closures share exactly one face, and then `f` is it |
| Incidence.GetFaceOfTetsShared | is_mesh/is_mesh_API.h:513-525 | the face found is a face of both tetrahedra |
| Incidence.GetTet | is_mesh/is_mesh_API.h:556-568 | `Some(u)` gives a co-tetrahedron of the face other than `t`; `None` iff the face is gone or has no other co-tetrahedron |
| Incidence.GetTetOnManifold | is_mesh/is_mesh_API.h:556-568 | with at most two tetrahedra per face, the other tetrahedron is found |
| Incidence.GetTetSymmetric | is_mesh/is_mesh_API.h:556-568 | stepping through a face and back returns to the start |
| Incidence.GetFaceThenGetTet | is_mesh/is_mesh_API.h:513-568 | from `t1`, `get_tet` through the face `get_face(t1, t2)` reaches `t2` |
| Incidence.GetApex | is_mesh/is_mesh_API.h:579-589 | `Some(n)` iff the face's closure has exactly one node outside the edge's closure, and then `n` is it |
| Incidence.GetApexCompletes | is_mesh/is_mesh_API.h:579-589 | for a face with three nodes and one of its edges with two, the apex is found, and the face's nodes are the edge's two nodes and the apex |
| Incidence.FaceStarIsCoTets | is_mesh/is_mesh_API.h:194-201 | the tetrahedra of a face's star are its co-tetrahedra |
| Regions.ReachSymmetric | is_mesh/is_mesh_API.h:254-269 | on a manifold linked complex, same-label reachability runs both ways |
| Regions.ReachTrans | is_mesh/is_mesh_API.h:254-269 | reachability composes |
| Regions.ThreeComponentsSameLabels | is_mesh/is_mesh_API.h:271-288 | whether three regions meet depends only on the labels of the tetrahedra involved |
| Regions.Peel | is_mesh/is_mesh_API.h:254-269 | the walk removes from `s` exactly `t` and the tetrahedra of `s` reachable from it by same-label steps |
| Regions.SeparatedThree | is_mesh/is_mesh_API.h:271-288 | a tetrahedron left after two regions were peeled off witnesses three regions |
| Regions.SeparatedDone | is_mesh/is_mesh_API.h:271-288 | a star used up by at most two peels does not hold three regions |
| Regions.Crossed | is_mesh/is_mesh_API.h:271-288 | the peeling loop of `crossing` returns true iff three label-connected regions meet among the tetrahedra of the node's star |
| FlagRules.InterfaceSeparatesRegions | is_mesh/is_mesh_API.h:194-221 | a face between two tetrahedra is interface iff their labels differ |
| FlagRules.EdgeCrossingIsInterface | is_mesh/is_mesh_API.h:223-252 | a crossing edge is interface |
| FlagRules.InteriorEdgeFacesAreInterior | is_mesh/is_mesh_API.h:194-252 | around an edge that is neither interface nor boundary, no face has exactly one tetrahedron, and a face with two has them under one label |
| FlagRules.InteriorEdgeFacesHaveTwo | is_mesh/is_mesh_API.h:194-252 | with at most two tetrahedra per face, and a tetrahedron on every face around such an edge, every face around it has exactly two tetrahedra, of one label |
| FlagRules.ThreeRegionsMakeCrossing | is_mesh/is_mesh_API.h:290-320 | a node on an interface edge where three regions meet is interface and crossing |
| FlagRules.NodeFlagsOfIs | is_mesh/is_mesh_API.h:290-320 | the node flags are the OR over its existing edges, with crossing also set when interface and three regions meet |
| FlagRules.UpdatedIsCurrentOn | is_mesh/is_mesh_API.h:164-192 | after `update(s)` every existing simplex of `s` has the flags the rules give, and every other flag is unchanged |
| FlagRules.UpdateOfCurrent | is_mesh/is_mesh_API.h:164-192 | where the flags already follow the rules, `update` changes nothing |
| FlagRules.UpdateIdempotent | is_mesh/is_mesh_API.h:164-192 | a second `update(s)` on an unchanged mesh changes no flag |
| FlagRules.InitMakesCurrent | is_mesh/is_mesh_API.h:143-159 | after `init` every flag of the mesh follows the rules, whatever they were |
| FlagRules.ClosureOfTetIsUpClosed | is_mesh/is_mesh_API.h:131-137 | every simplex whose flags can read `t`'s label lies in the closure of `t` |
| FlagRules.UpdatedKeptOutside | is_mesh/is_mesh_API.h:164-192 | `update(s)` changes no flag of a simplex outside `s` and keeps every flag map's keys |
| FlagRules.SetLabelKeepsFlagsCurrent | is_mesh/is_mesh_API.h:131-137 | relabelling `t` and updating its closure leaves every flag of the mesh current |
| Assembly.FaceEdgeGroups | is_mesh/is_mesh_API.h:971-998 | fails unless the exterior edges come in threes and every group ends with three edges; on success, each group starts with the interior edge and the exterior edges are used at most once |
| Assembly.PlaceEdge | is_mesh/is_mesh_API.h:976-990 | an exterior edge joins the first group it is a neighbour of |
| Assembly.DistributeTails | is_mesh/is_mesh_API.h:971-998 | grouping keeps each group's first key and places each exterior key at most once |
| Assembly.DistributeAtMostThree | is_mesh/is_mesh_API.h:971-998 | a group of edges never grows past three |
| Assembly.TetFaces | is_mesh/is_mesh_API.h:1037-1060 | the faces gathered for a new tetrahedron: the last pool face, then fitting interior faces, then fitting pool faces, which leave the pool; an empty pool fails; success iff four faces |
| Assembly.TetFacesAccount | is_mesh/is_mesh_API.h:1037-1060 | the pool loses only faces that went into the tetrahedron, and the tetrahedron holds only pool and interior faces |
| Assembly.SweepConserves | is_mesh/is_mesh_API.h:1044-1056 | the sweep moves faces from the pool to the tetrahedron and loses none |
| Assembly.NewKey | is_mesh/is_mesh_API.h:1018 | the kernel hands out a key no live tetrahedron has |
| Assembly.InsertTet | is_mesh/is_mesh_API.h:1016-1035 | a fresh tetrahedron on the four faces; each face gains it as co-tetrahedron; all links stay two-way |
| Assembly.WithTetLinked | is_mesh/is_mesh_API.h:1016-1035 | inserting a tetrahedron on live faces keeps every link two-way and changes nothing else |
| Assembly.CreateTet | is_mesh/is_mesh_API.h:1037-1060 | on success a fresh tetrahedron on the gathered faces is in the complex; on failure the complex is unchanged; the pool only shrinks |
| Assembly.CreatedTet | is_mesh/is_mesh_API.h:1037-1060 | the new tetrahedron has four faces, the first being the last pool face, all taken from the pool or the interior |
| Assembly.CreateTets | is_mesh/is_mesh_API.h:1062-1076 | fails with nothing changed unless `2 * interior + exterior` is a multiple of four; on success that many tetrahedra, label 0, were added on existing faces, and every exterior face is used |
| Validity.CheckedManifold | is_mesh/is_mesh_API.h:1346-1394 | a linked complex that passes the check has at most two tetrahedra per face |
| Validity.CheckedFaceStar | is_mesh/is_mesh_API.h:1355-1359 | after the check, each face of a tetrahedron lies between one or two, and a boundary face between one |
| Validity.LinkedPassesLinks | is_mesh/is_mesh_API.h:1355-1383 | the link clauses of the check hold on every linked complex |
| Validity.CurrentPassesCoTets | is_mesh/is_mesh_API.h:1357-1359 | on a valid mesh with current flags whose face lists each co-tetrahedron once, the co-tetrahedra clause passes |
| IsMesh.ISMesh.constructor | is_mesh/is_mesh_API.h:32-38 | from a linked, manifold complex with a label per tetrahedron, a mesh whose flags all follow the rules |
| IsMesh.ISMesh.FaceFlagsAt | is_mesh/is_mesh_API.h:194-221 | the face flags the rule gives: boundary iff one tetrahedron; interface iff that one is labelled non-zero or two differ |
| IsMesh.ISMesh.EdgeFlagsAt | is_mesh/is_mesh_API.h:223-252 | the OR of the existing faces' flags, crossing iff more than two are interface |
| IsMesh.ISMesh.NodeFlagsAt | is_mesh/is_mesh_API.h:290-320 | the OR of the existing edges' flags, crossing also when interface and three regions meet |
| IsMesh.ISMesh.ConnectedComponent | is_mesh/is_mesh_API.h:254-269 | removes from `s` exactly `t` and its same-label region within `s` |
| IsMesh.ISMesh.Crossing | is_mesh/is_mesh_API.h:271-288 | true iff three label-connected regions meet among the tetrahedra around the node |
| IsMesh.ISMesh.Update | is_mesh/is_mesh_API.h:164-192 | the flags become `Updated(s)`: faces, then edges, then nodes of `s` recomputed |
| IsMesh.ISMesh.Init | is_mesh/is_mesh_API.h:143-159 | every flag of the mesh follows the rules afterwards |
| IsMesh.ISMesh.SetLabel | is_mesh/is_mesh_API.h:131-137 | relabels `t`, updates its closure, and keeps a mesh whose flags were current current |
| IsMesh.ISMesh.Relabel | is_mesh/is_mesh_API.h:131-137 | the label of `t` becomes `l`; the flags become `Updated` on the closure of `t`, and no flag outside that closure changes |
| IsMesh.ISMesh.LabelEach | is_mesh/is_mesh_API.h:712-715 | after a `set_label` per tetrahedron of `ts`, each of them carries its wanted label, every other label is unchanged, and no flag outside the closure of `ts` changes |
| IsMesh.ISMesh.InheritLabels | is_mesh/is_mesh_API.h:712-715 | each new tetrahedron gets `tt[parent]`, other labels are unchanged, and no flag outside the new tetrahedra's closure changes |
| IsMesh.ISMesh.LabelAll | is_mesh/is_mesh_API.h:758-761 | every tetrahedron of `ts` gets `l`, other labels are unchanged, and no flag outside their closure changes |
| IsMesh.ISMesh.UpdateAround | is_mesh/is_mesh_API.h:717-720 | the flags of the new node's star and of the node follow the rules, labels are unchanged, and no other flag changes |
| IsMesh.ISMesh.SplitEdge | is_mesh/is_mesh_API.h:698-722 | each new tetrahedron gets its parent's label when the parent was around the edge, otherwise 0; other labels are carried; the star of the new node is updated; every flag outside the relabelled closures and that star keeps its carried value |
| IsMesh.ISMesh.SplitFace | is_mesh/is_mesh_API.h:724-748 | the same for a face |
| IsMesh.ISMesh.SplitTet | is_mesh/is_mesh_API.h:750-765 | every tetrahedron around the new node gets the split tetrahedron's label, other labels are carried; the star of the new node is updated; every flag outside that star's closure and the node keeps its carried value |
| IsMesh.ISMesh.Collapse | is_mesh/is_mesh_API.h:843-859 | a refused collapse returns the invalid key and changes nothing; otherwise labels are carried, the closure of the surviving node's star is updated, and every flag outside it keeps its carried value |
| IsMesh.ISMesh.CollapseOnto | is_mesh/is_mesh_API.h:873-882 | succeeds iff an edge joins the two nodes and the collapse keeps the first; on success, what `Collapse` promises |
| IsMesh.FlipLabels | is_mesh/is_mesh_API.h:698-748 | after a split and a collapse, each surviving tetrahedron carries its split label, and a tetrahedron the collapse created carries 0 |
| IsMesh.FlipOutcome | is_mesh/is_mesh_API.h:861-883 | a split followed by a collapse onto the chosen node leaves the labels and flags that `Flipped` describes |
| IsMesh.ISMesh.SplitEdgeOnto | is_mesh/is_mesh_API.h:872-882 | the tail of `flip_32` and `flip_44`: on success, the kept node is `n1`, and labels and flags are as `Flipped` describes: split labels (0 for created tetrahedra), the new node's star current, every other flag carried through both surgeries |
| IsMesh.ISMesh.SplitFaceOnto | is_mesh/is_mesh_API.h:1177-1187 | the same tail for `flip_23`, splitting a face |
| IsMesh.ISMesh.Flip32 | is_mesh/is_mesh_API.h:861-883 | fails with nothing changed unless the edge is neither interface nor boundary and has three nodes in its link; on success the result is a link node of the edge, the node the collapse kept, with labels and flags as `Flipped` describes |
| IsMesh.ISMesh.Flip23 | is_mesh/is_mesh_API.h:1166-1188 | fails with nothing changed unless the face is neither interface nor boundary and has two nodes in its link; on success the result is a link node of the face, the node the collapse kept, with labels and flags as `Flipped` describes |
| IsMesh.ISMesh.Flip44 | is_mesh/is_mesh_API.h:1316-1335 | fails with nothing changed unless the faces agree on both flags; on success the result is the apex of `f1` opposite the edge shared by both faces, the node the collapse kept, with labels and flags as `Flipped` describes for that edge |
| IsMesh.ISMesh.InsertTetrahedron | is_mesh/is_mesh_API.h:1016-1035 | a tetrahedron under a fresh key on the four faces, label 0, every link two-way |
| IsMesh.ISMesh.CreateTetrahedron | is_mesh/is_mesh_API.h:1037-1060 | the complex and labels become what `Assembly.CreateTet` describes; the pool only shrinks |
| IsMesh.ISMesh.CreateTetrahedra | is_mesh/is_mesh_API.h:1062-1076 | as `Assembly.CreateTets`, on the mesh's fields |
| IsMesh.ISMesh.ValidityCheck | is_mesh/is_mesh_API.h:1346-1394 | true iff every tetrahedron passes every clause of the check |

## Left out

- `vectors_read` and the mesh file formats: the constructor takes the kernel's complex and labels directly.
- IsMesh.ISMesh.constructor: does not run `validity_check`. `Validity.CheckedManifold`, `Validity.LinkedPassesLinks` and `Validity.CurrentPassesCoTets` state which of its clauses hold on the mesh the constructor builds. `Validity.CurrentPassesCoTets` assumes that each face lists its co-tetrahedra without repeats; neither the constructor nor `Valid` establishes that.
- The kernel itself (`t4mesh`, its pools and key reuse, `insert_face`, `insert_edge`, `split_edge_helper`, `split_face_helper`, `split_tetrahedron`, `edge_collapse_helper`). A surgery's result is a parameter. `Surgery.Fits` states what the model relies on: links kept two-way, at most two tetrahedra per face, created keys present, and every other key already there before. `Surgery.SplitFits` adds that the new node is in the resulting complex and that every key of `new_tets` is a tetrahedron of it.
- IsMesh.ISMesh.Collapse: a refused collapse is taken to leave the kernel untouched. That holds only if `edge_collapse_helper` (is_mesh_API.h:850) changes nothing when it returns the invalid key.
- IsMesh.ISMesh.InheritLabels: the source calls `set_label` over `new_tets`, a `std::map`, in key order. The model takes the tetrahedra in any order. The labels do not depend on the order. The flags inside the relabelled closures may: the model says nothing about them beyond the new node's star, whose flags the closing `update` refreshes.
- IsMesh.ISMesh.Flip44: refuses when the two faces do not share exactly one edge, or `f1` has no single apex opposite it. is_mesh_API.h:1322-1324 goes on with the invalid key instead, and the kernel's behaviour on it is not part of this model.
- IsMesh.ISMesh.Flip32: when the split succeeds and the collapse then fails, the model promises only a valid mesh. It does not describe the labels and flags the split left. The same holds for `Flip23`, `Flip44`, `SplitEdgeOnto` and `SplitFaceOnto`.
- Orientation (`orient_face_helper`, `is_inverted`, `get_nodes(tet)` and `get_edges(tet)` in their oriented order) and all geometry (positions, volumes, `sign` of floating-point values). `Util.Sign` is stated on mathematical reals.
- Validity.TetChecked: counts the edges and nodes of the tetrahedron's closure (six and four) rather than calling `get_edges(tet)` and `get_nodes(tet)`. Those depend on orientation, and `get_edges(tet)` resizes its result to six, so that clause cannot fail as written.
- `flip_22` forwards to `flip_44` and is not a separate member. The `*_new` flip variants (`flip_32_new`, `flip_23_new`, `flip_22_new`, `flip_44_new`) and `collapse_new` are not part of this model.
- Console output (`std::cout` in `validity_check`) and `garbage_collect`.
- `simplex_set` iteration order: sets are unordered here. Where the source takes "the first" element, the model takes any element.
- IsMesh.ISMesh.Flip32: the debug `assert`s become a `Failure` result, which the source does not return. The same holds for `Flip23`, `Flip44` and `CollapseOnto`, and for the plain `assert`s of `Assembly.FaceEdgeGroups` (is_mesh_API.h:973, 994), `Assembly.TetFaces` (is_mesh_API.h:1058) and `Assembly.CreateTets` (is_mesh_API.h:1065, 1073-1074).
- IsMesh.ISMesh.InsertTetrahedron: keeps the links two-way but does not promise at most two tetrahedra per face. That is the caller's business in the source too.
- Assembly.TetFaces: the source's erase loop pushes the face, decrements `fit`, then erases the element after it (is_mesh_API.h:1049-1057). When the face taken is the first of the pool, that decrement steps before `begin()`, which is undefined. The model does what the loop evidently means: erase the face and continue with the next.
- Assembly.TetFaces: an empty pool is a `Failure`. In the source it reads past the end of the pool.
- IsMesh.ISMesh.CreateTetrahedra: after a failure part-way through, the model promises only that the links and attributes stay consistent. It does not describe which tetrahedra were already created.
- `SCGenerator/generator.cpp` is not part of this model.
