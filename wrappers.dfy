/** Failure-carrying values that stand in for Java's null, Optional and thrown exceptions. */
module Wrappers {

  /** A value that may be missing: Java's Optional, or a reference that may be null. */
  datatype Option<+T> = None | Some(value: T)

  /** The result of an operation that returns a value or throws. */
  datatype Result<+T, +E> = Success(value: T) | Failure(error: E)

  /** The result of a void operation that may throw. */
  datatype Outcome<+E> = Pass | Fail(error: E)
}
