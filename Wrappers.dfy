/** Option and Result: the model's stand-ins for C#'s null and for exceptions. */
module Wrappers {

  /** A value that may be absent; `None` plays the part of C#'s `null`. */
  datatype Option<+T> = None | Some(value: T)

  /** The outcome of an operation that may throw: `Failure` carries what was thrown. */
  datatype Result<+R, +E> = Success(value: R) | Failure(error: E)
}
