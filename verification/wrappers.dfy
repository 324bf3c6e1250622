/** Wrappers modelling Python's `None` and raised exceptions. */
module Wrappers {

  /** A value that may be absent (Python's `None`). */
  datatype Option<+T> = None | Some(value: T)

  /** The result of an operation that either returns a value or raises an error. */
  datatype Result<+R, +E> = Success(value: R) | Failure(error: E)

  /** The result of a check that either passes silently or raises an error. */
  datatype Outcome<+E> = Pass | Fail(error: E)
}
