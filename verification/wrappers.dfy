/** Failure-carrying result types shared by the modules of this model. */
module Wrappers {

  /** A value that may be missing, as a Python dictionary lookup that may miss. */
  datatype Option<+T> = None | Some(value: T)

  /** Either a value or the error the source would raise instead of returning. */
  datatype Result<+T, +E> = Ok(value: T) | Err(error: E)
}
