/** Failure-carrying datatypes shared by every module of the model. */
module Wrappers {

  /** A value that may be absent: Python's `None` / a missing file. */
  datatype Option<+T> = None | Some(value: T)

  /** The outcome of a step that may raise: `Ok` on normal return, `Err` with what was raised. */
  datatype Result<+T, +E> = Ok(value: T) | Err(error: E)
}
