/** Option and Result: the model's stand-ins for Python's `None` returns and raised exceptions. */
module Wrappers {

  /** A value that may be absent, as a Python function that can return `None`. */
  datatype Option<+T> = None | Some(value: T)

  /** The outcome of an operation that either returns a value or raises an error. */
  datatype Result<+R, +E> = Success(value: R) | Failure(error: E)
}
