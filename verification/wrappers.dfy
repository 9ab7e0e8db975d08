/** Failure-carrying datatypes shared by the lobby model. */
module Wrappers {

  /** A value that may be absent; stands for a JavaScript reference that may be `null`. */
  datatype Option<+T> = None | Some(value: T)

  /** The outcome of an operation that can throw: a value, or the error it raises. */
  datatype Result<+R, +E> = Success(value: R) | Failure(error: E)
}
