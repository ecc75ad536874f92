/** Optional and fallible results used throughout the model. */
module Options {

  /** A value that may be absent: `None` is "nothing happens". */
  datatype Option<+T> = None | Some(value: T)

  /** A value or the reason it could not be produced. */
  datatype Result<+T, +E> = Ok(value: T) | Err(error: E)
}
