/** Option and Result, used for "no entry yet" and for the service's error outcomes. */
module Wrappers {

  /** A value that may be absent, in place of a null reference. */
  datatype Option<+T> = None | Some(value: T)

  /** Either a value or an error, in place of a thrown exception. */
  datatype Result<+T, +E> = Ok(value: T) | Err(error: E)
}
