/** Failure-compatible wrappers shared by the matching modules. */
module Wrappers {

  /** A value that may be absent; also stands for an operation that panics. */
  datatype Option<+T> = None | Some(value: T)

  /** A value or the error that stopped the operation producing it. */
  datatype Result<+T, +E> = Ok(value: T) | Err(error: E)
}
