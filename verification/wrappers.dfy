/** Option and Result, the value-level stand-ins for Python's `None` and for
    the exceptions the service raises. */
module Wrappers {

  datatype Option<+T> = None | Some(value: T)

  datatype Result<+R, +E> = Success(value: R) | Failure(error: E)
}
