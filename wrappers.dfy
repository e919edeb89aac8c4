/** Failure-carrying datatypes shared by the validator and the generator. */
module Wrappers {

  datatype Option<+T> = None | Some(value: T)

  datatype Result<+T, +E> = Ok(value: T) | Err(error: E)

  /** The verdict of a check that carries no value: it passes, or fails with a reason. */
  datatype Outcome<+E> = Pass | Fail(error: E)
}
