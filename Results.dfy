/** Option and Result values used where the Java code returns null or throws. */
module Results {

  /** A value that may be missing (a Java null). */
  datatype Option<+T> = None | Some(value: T)

  /** Either a value or the error that the Java code raises as an exception. */
  datatype Result<+T, +E> = Ok(value: T) | Err(error: E)
}
