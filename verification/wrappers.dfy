/** Failure-carrying values used in place of Java's null returns and checked exceptions. */
module Wrappers {

  /** A value that may be absent (Java's null). */
  datatype Option<+T> = None | Some(value: T)

  /** Either a computed value or the error that aborted the computation. */
  datatype Result<+T, +E> = Success(value: T) | Failure(error: E)

  /** The outcome of an operation that returns nothing (a Java `void` method that may throw). */
  datatype Outcome<+E> = Pass | Fail(error: E)
}
