/** Failure-carrying return types used where the Python code returns `None`
    or raises. */
module Wrappers {

  /** A value that may be absent (Python's implicit `None` return). */
  datatype Option<+T> = None | Some(value: T)

  /** A computation that either succeeds with a value or fails with an error. */
  datatype Result<+T, +E> = Success(value: T) | Failure(error: E)
}
