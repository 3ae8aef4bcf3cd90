/** Failure-carrying results for the operations that raise in the source. */
module Results {

  /** A value that may be absent (a dictionary lookup that would raise KeyError). */
  datatype Option<+T> = None | Some(value: T)

  /** The value of an operation, or the exception it raises. */
  datatype Result<+T, +E> = Success(value: T) | Failure(error: E)
}
