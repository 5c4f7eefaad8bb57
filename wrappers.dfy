/** Option and Result values used in place of Python's None and exceptions. */
module Wrappers {

  datatype Option<+T> = None | Some(value: T)

  /** A computation that either yields a value or raises the error `error`. */
  datatype Result<+R, +E> = Success(value: R) | Failure(error: E)
}
