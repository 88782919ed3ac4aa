/** Failure-carrying result types used in place of Java's null and exceptions. */
module Wrappers {

  /** `None` stands for Java's `null` (no binding, no value). */
  datatype Option<+T> = None | Some(value: T)

  /** A value or the exception that was thrown instead. */
  datatype Result<+T, +E> = Ok(value: T) | Err(error: E)

  /** Completion of a `void` method: it returned normally, or it threw `error`. */
  datatype Outcome<+E> = Pass | Fail(error: E)
}
