/** Option and Result values used where the Java code returns null or throws. */
module Outcomes {

  /** A value that may be absent (a Java reference that may be null). */
  datatype Option<+T> = None | Some(value: T)

  /** Either a value or the error the Java code would throw instead. */
  datatype Result<+T, +E> = Ok(value: T) | Err(error: E)
}
