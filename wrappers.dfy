/** Failure-carrying values used across the model. */
module Wrappers {

  /** A value that may be absent: a pandas NA cell, a key that is not there. */
  datatype Option<+T> = None | Some(value: T)

  /** The outcome of an operation whose source raises an exception on bad input. */
  datatype Result<+T, +E> = Success(value: T) | Failure(error: E)
}
