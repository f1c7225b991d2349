module Wrappers {
  datatype Option<T> = None | Some(value: T)
  datatype Result<T, E> = Ok(value: T) | Err(error: E)
  /** The result of an operation that yields nothing but may fail. */
  datatype Outcome<E> = Pass | Fail(error: E)
}
