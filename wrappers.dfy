/** Failure-carrying results shared by the modules of the model. */
module Wrappers {

  /** A value that may be absent; each use says what its absence means. */
  datatype Option<+T> = None | Some(value: T)

  /** A value or the error that stopped its computation. */
  datatype Result<+R, +E> = Ok(value: R) | Err(error: E)
}
