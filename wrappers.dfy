/** Option and Result values used where the Java code returns null or throws. */
module Wrappers {

  /** A value that may be absent (Java `null` or an empty `Optional`). */
  datatype Option<+T> = None | Some(value: T)

  /** The outcome of an operation that may raise an exception. */
  datatype Result<+R, +E> = Success(value: R) | Failure(error: E)
}
