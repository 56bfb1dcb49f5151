/** Failure-carrying values shared by the other modules. */
module Wrappers {

  datatype Option<T> = None | Some(value: T)

  /** A computation that either yields a value or raises the named error. */
  datatype Result<T, E> = Ok(value: T) | Err(error: E)
}
