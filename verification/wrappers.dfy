/** The model's stand-ins for Python's `None` and for a raised exception:
    a value that may be missing, and a value or the error raised instead. */
module Wrappers {

  datatype Option<T> = None | Some(value: T)

  datatype Result<R, E> = Success(value: R) | Failure(error: E)
}
