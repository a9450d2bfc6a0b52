/** Failure-carrying return values, standing in for Go's `(value, error)` pairs. */
module Wrappers {

  datatype Option<+T> = None | Some(value: T)

  datatype Result<+T, +E> = Success(value: T) | Failure(error: E)

  /** An `error` return with no value beside it: `nil` is `Pass`. */
  datatype Outcome<+E> = Pass | Fail(error: E)
}
