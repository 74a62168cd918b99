/** Option and Result, the two failure-compatible wrappers the model uses. */
module Wrappers {

  /** Python's `None` or a value. */
  datatype Option<+T> = None | Some(value: T)

  /** A value, or the exception an operation raised. */
  datatype Result<+T, +E> = Success(value: T) | Failure(error: E)
}
