/**
 Optional values and outcomes, used wherever the source returns `None` or `()` to say
 "not found", or raises an exception.
 */
module Wrappers {

  datatype Option<+T> = None | Some(value: T)

  /** The value an operation returns, or the exception it raises. */
  datatype Result<+T, +E> = Success(value: T) | Failure(error: E)
}
