/** Failure-compatible result types used across the model. */
module Wrappers {

  datatype Option<+T> = None | Some(value: T)

  /** The (value, error) pair a Go function returns, with exactly one of the two present. */
  datatype Result<+R, +E> = Success(value: R) | Failure(error: E)
}
