/** Option and Result values: the outcomes of the library's operations. */
module Wrappers {

  datatype Option<+T> = None | Some(value: T)

  /** A value or an error, standing for Go's `(value, error)` pair. */
  datatype Result<+R, +E> = Success(value: R) | Failure(error: E)
}
