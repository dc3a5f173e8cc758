/** Failure-carrying wrappers used by the decoder model. */
module Wrappers {

  datatype Option<+T> = None | Some(value: T)

  /** A decoding step either produces a value or names the panic site that aborted it. */
  datatype Result<+T, +E> = Ok(value: T) | Err(error: E)
}
