/** The Option and Result datatypes used across the model. */
module Wrappers {
  /** A value that may be absent (a nil pointer, a missing lookup). */
  datatype Option<+T> = None | Some(value: T)

  /** A value or the error returned in its place. */
  datatype Result<+T, +E> = Success(value: T) | Failure(error: E)
}
