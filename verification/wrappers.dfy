/** Option and Result: an optional value, and the value-or-error shape used
    for the exceptions the Python code raises. */
module Wrappers {

  datatype Option<+T> = None | Some(value: T)

  datatype Result<+T, +E> = Success(value: T) | Failure(error: E)
}
