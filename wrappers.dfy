/** Option and Result values standing in for Go's `(value, ok)` and `(value, error)` pairs. */
module Wrappers {

  datatype Option<+T> = None | Some(value: T)

  datatype Result<+R, +E> = Success(value: R) | Failure(error: E)

  /** Pass or fail, for Go calls that return only an `error`. */
  datatype Outcome<+E> = Pass | Fail(error: E)
}
