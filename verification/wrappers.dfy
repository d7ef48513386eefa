/** Failure-carrying result types shared by the service and controller models. */
module Wrappers {

  /** A value that may be absent: C#'s `null` for reference types and `T?` for value types. */
  datatype Option<+T> = None | Some(value: T)

  /** An operation that either produces a value or fails with an error. */
  datatype Result<+T, +E> = Ok(value: T) | Err(error: E)
}
