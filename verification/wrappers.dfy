/** The failure-carrying result type used by every validating constructor. */
module Wrappers {

  /** Either the validated value or the error that rejected the input. */
  datatype Result<+T, +E> = Ok(value: T) | Err(error: E)
}
