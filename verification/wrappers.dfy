/** Failure-carrying results used for the scripts' raised exceptions. */
module Wrappers {

  /** A value that may be absent: Python's `None` or a found index. */
  datatype Option<+T> = None | Some(value: T)

  /** The outcome of a routine that either returns a value or raises. */
  datatype Result<+T, +E> = Success(value: T) | Failure(error: E)
}
