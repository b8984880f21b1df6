/** Option and Result, standing in for values that may be missing and for the
    library's `error(...)` calls that abort an operation. */
module Wrappers {

  datatype Option<+T> = None | Some(value: T)

  datatype Result<+T, +E> = Success(value: T) | Failure(error: E)
}
