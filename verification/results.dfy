/** Optional values and results with an error, for lookups and operations that can fail. */
module Results {

  /** A value that may be absent (a null pointer in the C code). */
  datatype Option<+T> = None | Some(value: T)

  /** The value of a call that either succeeds or fails with an error. */
  datatype Result<+R, +E> = Success(value: R) | Failure(error: E)
}
