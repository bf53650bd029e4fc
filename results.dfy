/** The two wrappers the program uses for absent values and for errors reported as strings. */
module Results {

  /** Rust's `Option<T>`. */
  datatype Option<+T> = None | Some(value: T)

  /** Rust's `Result<T, String>`: every error in this program is a message. */
  datatype Result<+T> = Ok(value: T) | Err(message: string)
}
