/** Failure-carrying wrappers shared by every module of the model. */
module Basics {

  /** A value that may be absent; stands for a Go nil pointer or interface. */
  datatype Option<+T> = None | Some(value: T)

  /** The (value, error) pair a Go function returns, with exactly one side set. */
  datatype Result<+T, +E> = Ok(value: T) | Err(error: E)
}
