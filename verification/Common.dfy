/** Results and options shared by the modules. */
module Common {

  datatype Option<+T> = None | Some(value: T)

  /** A value, or the exception the source throws. */
  datatype Result<+T, +E> = Ok(value: T) | Err(error: E)
}
