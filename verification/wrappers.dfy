/** Failure-carrying values used throughout the model: Python's `None` and raised errors. */
module Wrappers {

  /** A value that may be absent (Python's `None`). */
  datatype Option<+T> = None | Some(value: T)

  /** Either a computed value or the message of a raised error. */
  datatype Result<+T, +E> = Success(value: T) | Failure(error: E)
}
