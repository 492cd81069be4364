/** Wrappers for a value that may be `null` (`Option`) and for a computation
    that may throw (`Result`). */
module Wrappers {

  /** A value that may be absent (`null` in the source). */
  datatype Option<T> = None | Some(value: T)

  /** The outcome of a computation that either returns a value or throws. */
  datatype Result<T, E> = Ok(value: T) | Err(error: E)
}
