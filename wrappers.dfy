/** Outcome types used where the source returns null or throws. */
module Wrappers {

  /** A value that may be absent (the source's `null`). */
  datatype Option<+T> = None | Some(value: T)

  /** Either a value or the kind of exception the source would throw. */
  datatype Result<+T, +E> = Ok(value: T) | Err(error: E)
}
