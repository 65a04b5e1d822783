/** Failure-compatible wrappers shared by the other modules. */
module Wrappers {

  /** An optional value: JavaScript's `undefined` is `None`. */
  datatype Option<+T> = None | Some(value: T)

  /** The outcome of an operation that may throw: `Err` carries what is thrown. */
  datatype Result<+T, +E> = Ok(value: T) | Err(error: E)
}
