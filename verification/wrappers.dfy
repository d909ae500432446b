/** Failure-carrying wrappers used for the "none" and "raises" outcomes of the model. */
module Wrappers {

  /** A value that may be absent (Python's `None`). */
  datatype Option<+T> = None | Some(value: T)

  /** Either a successful value or the error the operation raises. */
  datatype Result<+T, +E> = Success(value: T) | Failure(error: E)
}
