/** Failure-carrying values used across the model. */
module Wrappers {

  /** An optional value: Go's `error` is either nil (`None`) or an error (`Some`). */
  datatype Option<+T> = None | Some(value: T)

  /** The outcome of an operation that yields a value or fails with an error. */
  datatype Result<+R, +E> = Success(value: R) | Failure(error: E)
}
