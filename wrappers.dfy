/** Failure-compatible wrappers for the exceptions the library raises. */
module Wrappers {

  /** An optional value: None stands for a lookup that raised. */
  datatype Option<+T> = None | Some(value: T)

  /** A value or the error that the source would have raised instead. */
  datatype Result<+T, +E> = Success(value: T) | Failure(error: E)
}
