/** Optional values and results with an error, used throughout the model. */
module Wrappers {

  /** A value that may be absent (PHP `null`). */
  datatype Option<+T> = None | Some(value: T)

  /** The outcome of an operation that may raise an error. */
  datatype Result<+T, +E> = Success(value: T) | Failure(error: E)
}
