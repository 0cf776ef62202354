/** Failure-carrying values used where the Python code returns None or raises. */
module Wrappers {

  /** A value that may be absent: Python's `None` versus a present value. */
  datatype Option<+T> = None | Some(value: T)

  /** Either a value or the name of the exception the Python code would raise. */
  datatype Result<+R, +E> = Success(value: R) | Failure(error: E)
}
