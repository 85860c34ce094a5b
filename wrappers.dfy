/** An optional value (Python's `None` or a value), and the outcome of an
    operation that may fail with an error. */
module Wrappers {

  datatype Option<+T> = None | Some(value: T)

  datatype Result<+T, +E> = Success(value: T) | Failure(error: E)
}
