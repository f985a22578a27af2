/** Optional values and results with an error payload. */
module Wrappers {

  /** A cell or aggregate that may be missing (pandas' NaN). */
  datatype Option<+T> = None | Some(value: T)

  /** The outcome of an operation that can fail with an error value. */
  datatype Result<+T, +E> = Ok(value: T) | Err(error: E)
}
