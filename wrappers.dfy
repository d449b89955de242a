/** Option and Result, used for absent values and for validation outcomes. */
module Wrappers {

  /** A value that may be absent: `null`/`undefined` in the pages' scripts. */
  datatype Option<+T> = None | Some(value: T)

  /** The outcome of a validation chain: the accepted value, or the first rejection. */
  datatype Result<+R, +E> = Ok(value: R) | Err(error: E)
}
