/** Optional and fallible results, standing for the source's nullable values and exceptions. */
module Wrappers {

  /** A value that may be absent; `None` stands for the source's `null`. */
  datatype Option<+T> = None | Some(value: T)

  /** A computation that either succeeds with a value or fails with an error. */
  datatype Result<+T, +E> = Success(value: T) | Failure(error: E)
}
