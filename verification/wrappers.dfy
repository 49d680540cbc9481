/** Option and result wrappers shared by the other modules. */
module Wrappers {

  /** An optional value: the result of a capture that may not match, or an evicted element. */
  datatype Option<+T> = None | Some(value: T)

  /** A computation that either yields a value or stops with an internal fault. */
  datatype Result<+T, +E> = Ok(value: T) | Err(error: E)
}
