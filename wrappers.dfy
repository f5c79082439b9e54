/** Failure-carrying results shared by every module of the model. */
module Wrappers {

  /** Python's `None` (or, for an argument, any value that is not of the expected type) versus a value. */
  datatype Option<+T> = None | Some(value: T)

  /** A value, or the exception the source raises instead of returning. */
  datatype Result<+T, +E> = Ok(value: T) | Err(error: E)

  /** A procedure that returns nothing, or the exception it raises. */
  datatype Outcome<+E> = Pass | Fail(error: E)
}
