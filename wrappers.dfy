/** Failure-compatible wrappers used across the model. */
module Wrappers {

  /** A value that may be absent: the station result `None` of the source. */
  datatype Option<+T> = None | Some(value: T)

  /** Either a value or the exception the source would raise instead. */
  datatype Result<+R, +E> = Success(value: R) | Failure(error: E)
}
