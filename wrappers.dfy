/** Failure-compatible wrappers used across the model for Python's `None` and raised exceptions. */
module Wrappers {

  /** A value that may be absent: a missing dictionary key, a regex group that did not match. */
  datatype Option<+T> = None | Some(value: T)

  /** A successful value or the error a Python function would have raised. */
  datatype Result<+T, +E> = Success(value: T) | Failure(error: E)
}
