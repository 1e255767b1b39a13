/** Missing values and error returns. */
module Wrappers {

  /** A cell or lookup result that may be missing (pandas NaN / a dict miss). */
  datatype Option<+T> = None | Some(value: T)

  /** A step that either produces a value or raises. */
  datatype Result<+R, +E> = Ok(value: R) | Err(error: E)
}
