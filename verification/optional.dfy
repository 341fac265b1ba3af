/** A value that may be missing (a dropdown with nothing selected, the
    first token of a string that has none) and a value or an error. */
module Optional {
  datatype Option<T> = None | Some(value: T)

  /** The value a callback returns, or the exception it raises instead. */
  datatype Result<T, E> = Ok(value: T) | Err(error: E)
}
