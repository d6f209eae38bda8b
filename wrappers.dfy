/** Failure-carrying results: the model's stand-in for thrown exceptions. */
module Wrappers {

  datatype Option<+T> = None | Some(value: T)

  /** A computation that either produced a value or failed with an error. */
  datatype Result<+T, +E> = Success(value: T) | Failure(error: E)

  /** A computation with no value that either passed or failed with an error. */
  datatype Outcome<+E> = Pass | Fail(error: E)
}
