/** Failure-carrying values shared by the rest of the model. */
module Options {

  /** A value that may be absent: the result of a search or a parse. */
  datatype Option<+T> = None | Some(value: T)

  /** A value or the error the source raises instead of producing it. */
  datatype Result<+T, +E> = Ok(value: T) | Err(error: E)
}
