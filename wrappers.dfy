/** Option and Result values used where the Go code returns `error` or panics. */
module Wrappers {

  /** `None` stands for Go's nil error, `Some(msg)` for an error carrying `msg`. */
  datatype Option<+T> = None | Some(value: T)

  /** A computation that either produces a value or fails with an error. */
  datatype Result<+T, +E> = Success(value: T) | Failure(error: E)
}
