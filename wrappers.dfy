/** Absent values and failing calls, in place of Java's `null` and exceptions. */
module Wrappers {

  /** A value that may be missing, where the Java code has a nullable reference. */
  datatype Option<+T> = None | Some(value: T)

  /** Either a value or the exception that a Java call throws instead of returning. */
  datatype Result<+T, +E> = Ok(value: T) | Err(error: E)
}
