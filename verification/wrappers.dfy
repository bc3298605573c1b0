/** Failure-carrying wrappers shared by every puzzle module. */
module Wrappers {

  /** A value that may be absent: JavaScript's `undefined`, `null` or `NaN` results. */
  datatype Option<+T> = None | Some(value: T)

  /** The outcome of an operation that can throw. */
  datatype Result<+T> = Ok(value: T) | Err(message: string)
}
