/** Small failure-carrying datatypes shared by the other modules. */
module Wrappers {

  datatype Option<T> = None | Some(value: T)

  /** The outcome of an operation that either returns a value or raises an error. */
  datatype Result<T, E> = Ok(value: T) | Err(error: E)
}
