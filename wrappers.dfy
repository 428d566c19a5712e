/** Option and Result, used for Python's `None` and for the `ValueError` that the menu builder raises. */
module Wrappers {

  datatype Option<+T> = None | Some(value: T)

  /** The outcome of a call that either returns a value or raises an error. */
  datatype Result<+R, +E> = Success(value: R) | Failure(error: E)
}
