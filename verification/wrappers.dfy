/**
 * Failure-carrying values used instead of PHP's `null` returns and thrown
 * exceptions.
 */
module Wrappers {

  /** A value that may be absent. */
  datatype Option<+T> = None | Some(value: T)

  /** Either a successful value or the error that was raised instead. */
  datatype Result<+T, +E> = Success(value: T) | Failure(error: E)
}
