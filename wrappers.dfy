/** Outcome types shared by the model. */
module Wrappers {

  /** A value or nothing: Java's `null` for a missing file, and an engine call that threw. */
  datatype Option<T> = None | Some(value: T)

  /** The three ways a call of the utility ends: a value, an `IllegalArgumentException`
      raised before any work starts, or any other failure (an `IOException` or an engine
      exception, which the utility wraps into a `RuntimeException`). */
  datatype Result<T> = Ok(value: T) | IllegalArgument | Failure
}
