/** Failure-carrying values used in place of `null` results and thrown errors. */
module Wrappers {

  datatype Option<+T> = None | Some(value: T)

  /** `Ok` is a resolved promise, `Err` a rejected one carrying what was thrown. */
  datatype Result<+T, +E> = Ok(value: T) | Err(error: E)
}
