/** Failure-carrying values standing in for Java's null and for thrown exceptions. */
module Wrappers {

  /** A value that may be absent (a Java reference that may be null). */
  datatype Option<+T> = None | Some(value: T)

  /** The outcome of an operation that either returns a value or fails with an error. */
  datatype Result<+R, +E> = Success(value: R) | Failure(error: E)

  /** The outcome of a check that returns nothing on success. */
  datatype Outcome<+E> = Pass | Fail(error: E)
}
