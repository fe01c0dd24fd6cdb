/** Failure-carrying result types shared by the provider and the storage bridge. */
module Wrappers {

  /** A value that may be absent (Java's nullable reference). */
  datatype Option<+T> = None | Some(value: T)

  /** A value or the exception the Java method throws instead of returning it. */
  datatype Result<+T, +E> = Ok(value: T) | Err(error: E)

  /** A `void` Java method that either returns normally or throws. */
  datatype Outcome<+E> = Pass | Fail(error: E)
}
