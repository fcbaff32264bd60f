/** Failure-carrying values: Python code that raises is modelled by returning one of these. */
module Wrappers {

  /** A value that may be missing (the operation raised before producing it). */
  datatype Option<+T> = None | Some(value: T)

  /** A value, or the reason the operation stopped. */
  datatype Result<+T, +E> = Ok(value: T) | Err(error: E)
}
