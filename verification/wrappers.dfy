/** Failure-carrying datatypes shared by the article model. */
module Wrappers {

  /** A value that may be absent: an undefined request-body field, a failed parse. */
  datatype Option<+T> = None | Some(value: T)

  /** The outcome of an operation that either produces a value or fails with an error. */
  datatype Result<+R, +E> = Success(value: R) | Failure(error: E)
}
