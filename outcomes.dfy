/** Optional values and error-carrying results shared by every module. */
module Outcomes {

  /** A value that may be missing: a pandas NaN cell, an absent session slot. */
  datatype Option<+T> = None | Some(value: T)

  /** The outcome of an operation that can fail with an error of type E. */
  datatype Result<+T, +E> = Ok(value: T) | Err(error: E)
}
