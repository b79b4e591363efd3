/** Optional values and pass/fail outcomes, standing in for Java's null and exceptions. */
module Wrappers {

  /** A value that may be absent (a Java reference that may be null). */
  datatype Option<+T> = None | Some(value: T)

  /** A value, or the exception that was thrown instead. */
  datatype Result<+T, +E> = Success(value: T) | Failure(error: E)
}
