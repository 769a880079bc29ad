/** Option and Result, standing in for Python's `None` and for raised exceptions. */
module Wrappers {

  datatype Option<+T> = None | Some(value: T)

  datatype Result<+T, +E> = Success(value: T) | Failure(error: E)

  /** A call that either returns normally or raises `error`. */
  datatype Outcome<+E> = Pass | Fail(error: E)
}
