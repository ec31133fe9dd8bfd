/** Optional values and results: Java's null and thrown exceptions, made explicit. */
module Wrappers {

  /** A value that may be absent: Java's `null` or `Optional.empty()`. */
  datatype Option<+T> = None | Some(value: T)

  /** The outcome of a call that may throw: `Failure` carries what was thrown. */
  datatype Result<+R, +E> = Success(value: R) | Failure(error: E)
}
