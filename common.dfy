/** Failure-carrying wrappers shared by every module of the model. */
module Common {

  /** A value that may be absent: SQL NULL, Python None. */
  datatype Option<T> = None | Some(value: T)

  /** The outcome of an operation that may raise. */
  datatype Result<T, E> = Ok(value: T) | Err(error: E)
}
