/** Optional values and results with an error, used for Go's nil pointers and error returns. */
module Wrappers {

  /** A value that may be missing: a Go pointer or error that may be nil. */
  datatype Option<+T> = None | Some(value: T)

  /** A Go `(value, error)` pair where exactly one of the two is meaningful. */
  datatype Result<+T, +E> = Success(value: T) | Failure(error: E)
}
