/** Failure-carrying results: the Java code signals bad arguments and invalid
    boards with exceptions; the model returns them as values instead. */
module Wrappers {

  /** A computed value, or the error the Java code would have thrown. */
  datatype Result<+T, +E> = Ok(value: T) | Err(error: E)

  /** Normal completion of a void operation, or the error it would have thrown. */
  datatype Outcome<+E> = Pass | Fail(error: E)

  /** `IllegalArgumentException` raised by the board's bounds checks. */
  datatype IllegalArgument = IllegalArgument
}
