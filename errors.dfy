/** The two zero-data error markers of the octree (src/error.rs). */
module Errors {

  /** Returned by `Octree.New` when some component of the ranges is negative. */
  datatype NegativeRangeError = NegativeRangeError

  /** Returned by `Octree.Push` when the point fails the bounds check. */
  datatype OutOfRangeError = OutOfRangeError
}
