/** Option, Result and Outcome: the values that stand in for Java's null returns and exceptions. */
module Wrappers {

  /** A value or nothing; `None` models a Java `null` return. */
  datatype Option<+T> = None | Some(value: T)

  /** A value, or the error a Java method would have thrown instead of returning it. */
  datatype Result<+T, +E> = Ok(value: T) | Err(error: E)

  /** The outcome of a Java `void` method: it returned normally, or it threw. */
  datatype Outcome<+E> = Pass | Fail(error: E)
}
