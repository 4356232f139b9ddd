/** Failure-carrying return types for the solver's partial operations. */
module Results {

  /** A value that may be absent (Rust's `Option`). */
  datatype Option<T> = None | Some(value: T)

  /** Either a value or an error describing why there is none. */
  datatype Result<T, E> = Ok(value: T) | Err(error: E)
}
