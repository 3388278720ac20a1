/** Failure-compatible wrappers used for lookups that the source can fail on. */
module Wrappers {

  datatype Option<+T> = None | Some(value: T)

  /** `Failure` stands for a Python exception raised by a lookup. */
  datatype Result<+R, +E> = Success(value: R) | Failure(error: E)
}
