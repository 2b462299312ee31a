/** Option and Result: the absence of a value (Python's `None`) and the
    error path of an operation that raises in the source. */
module Wrappers {

  datatype Option<+T> = None | Some(value: T)

  datatype Result<+T, +E> = Success(value: T) | Failure(error: E)
}
