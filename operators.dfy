/**
 * The debug-build preconditions of the flips, on the state before the flip:
 * `flip_32(e)` needs an edge that is neither interface nor boundary with three
 * nodes in its link; `flip_23(f)` a face that is neither, with two nodes in
 * its link; `flip_44(f1, f2)` two faces that agree on both flags, share one
 * edge, and have an apex opposite it.
 */
module Operators {
  import opened Keys
  import opened Incidence
  import opened FlagRules

  ghost predicate Flip32Allowed(c: Complex, edgeFlags: map<EdgeKey, Flags>, e: EdgeKey)
  {
    e in edgeFlags && !edgeFlags[e].interface && !edgeFlags[e].boundary && |LinkOfEdge(c, e).nodes| == 3
  }

  ghost predicate Flip23Allowed(c: Complex, faceFlags: map<FaceKey, FaceFlags>, f: FaceKey)
  {
    f in faceFlags && !faceFlags[f].interface && !faceFlags[f].boundary && |LinkOfFace(c, f).nodes| == 2
  }

  ghost predicate Flip44Allowed(c: Complex, faceFlags: map<FaceKey, FaceFlags>, f1: FaceKey, f2: FaceKey)
  {
    f1 in faceFlags && f2 in faceFlags &&
    faceFlags[f1].interface == faceFlags[f2].interface && faceFlags[f1].boundary == faceFlags[f2].boundary &&
    GetEdgeOfFaces(c, f1, f2).Some? && GetApex(c, f1, GetEdgeOfFaces(c, f1, f2).value).Some?
  }
}
