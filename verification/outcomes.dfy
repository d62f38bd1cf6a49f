/** Results of computations that can fail or run out of fuel. */
module Outcomes {
  /** A value, or none (used for fuel exhaustion and missing entries). */
  datatype Option<T> = None | Some(value: T)

  /** A value, or an error message. */
  datatype Result<T> = Ok(value: T) | Err(msg: string)
}
