/** Option and Result, the two failure-carrying shapes the model uses. */
module Outcome {

  /** A value that may be absent (`undefined` or `null` in the source). */
  datatype Option<+T> = None | Some(value: T)

  /** The outcome of an operation that may throw or reject: either its value or
      the error it raised. */
  datatype Result<+T> = Ok(value: T) | Err(error: string)
}
