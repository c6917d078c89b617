/** Option and Result, used for the source's null, undefined and thrown errors. */
module Wrappers {

  /** A value that may be missing: a failed read, an unresolved promise, NaN. */
  datatype Option<+T> = None | Some(value: T)

  /** The outcome of a call that may throw: `Err` carries the error message. */
  datatype Result<+T, +E> = Ok(value: T) | Err(error: E)
}
