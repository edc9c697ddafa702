/** Failure-compatible wrappers standing for Java's null returns and exceptions. */
module Results {

  /** An optional value: `None` models a Java `null` or an empty `Optional`. */
  datatype Option<+T> = None | Some(value: T)

  /** The outcome of an operation that returns a value or throws. */
  datatype Result<+T, +E> = Ok(value: T) | Err(error: E)

  /** The outcome of a `void` operation that may throw. */
  datatype Outcome<+E> = Pass | Fail(error: E)
}
