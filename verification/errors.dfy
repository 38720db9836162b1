/** Optional arguments and the exceptions the Python drivers raise. */
module Errors {

  /** A Python argument that may be `None`. */
  datatype Option<+T> = None | Some(value: T)

  /** The exceptions of the modelled code, one per way it can fail. */
  datatype Error =
    | RaggedRows      // `np.corrcoef` given two rows of different lengths
    | EmptyArgmax     // `np.argmax` of an empty list of coefficients
    | UnknownMethod   // `find_best_alignment_offset` with a method other than "mse" or "corr"
    | UnknownFixMode  // `_fix` with a mode other than None, "shortest" or "longest"
    | ShapeMismatch   // a slice assignment whose sides cannot be broadcast together

  /** The value of a call, or the exception it raises. */
  datatype Result<+R> = Success(value: R) | Failure(error: Error)
}
