/** Failure-carrying values used for the queue's error paths. */
module Wrappers {

  datatype Option<+T> = None | Some(value: T)

  /** Success or failure of an operation that returns nothing. */
  datatype Outcome<+E> = Pass | Fail(error: E)

  /** A value or the error that prevented it. */
  datatype Result<+R, +E> = Ok(value: R) | Err(error: E)
}
