/** Optional values and fallible results, shared by the other modules. */
module Wrappers {

  /** A value that may be absent (Python's `None`). */
  datatype Option<T> = None | Some(value: T)

  /** The outcome of a call that may raise: its value or the exception it raised. */
  datatype Result<T, E> = Success(value: T) | Failure(error: E)
}
