/**
 * Keys of the four simplex kinds and the two result wrappers used throughout.
 * A default-constructed key of the mesh library is "invalid"; here a lookup
 * that can fail returns an `Option`, and `None` plays the invalid key.
 */
module Keys {

  type NodeKey = nat
  type EdgeKey = nat
  type FaceKey = nat
  type TetKey = nat

  datatype Option<T> = None | Some(value: T)

  /** `Failure` stands for a failed (debug-build) assertion of the mesh library. */
  datatype Result<T> = Success(value: T) | Failure(error: string)

  /** Taking `x` out of what is left to do adds it to what is done. */
  lemma DoneStep<T>(all: set<T>, todo: set<T>, x: T)
    requires x in todo && todo <= all
    ensures all - (todo - {x}) == (all - todo) + {x}
    ensures |todo - {x}| < |todo|
  {
  }
}
