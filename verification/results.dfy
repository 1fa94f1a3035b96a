/** Failure-carrying values shared by the other modules. */
module Results {

  /** A value that may be absent, as Rust's `Option`. */
  datatype Option<+T> = None | Some(value: T)

  /** The outcome of a fallible step, as Rust's `Result`. */
  datatype Result<+T, +E> = Ok(value: T) | Err(error: E)
}
