/** Failure-compatible result types used by every component of the model. */
module Wrappers {

  datatype Option<+T> = None | Some(value: T)

  /** An operation either produces a value or stops with the error the source raises. */
  datatype Result<+R, +E> = Ok(value: R) | Err(error: E)
}
