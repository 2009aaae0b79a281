/** Outcome types for operations that throw in the scripts' runtime. */
module Results {

  /** A computed value, or the error that would have been thrown instead. */
  datatype Result<T, E> = Ok(value: T) | Err(error: E)

  /** A value that may be absent. */
  datatype Option<T> = None | Some(value: T)
}
