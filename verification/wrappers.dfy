/** Failure-compatible wrappers used across the model: an optional value and
    a value-or-error result. */
module Wrappers {

  /** A value that may be absent, such as the text of a file that could not be read. */
  datatype Option<+T> = None | Some(value: T)

  /** Either a successful value or the error that stopped the computation. */
  datatype Result<+R, +E> = Success(value: R) | Failure(error: E)
}
