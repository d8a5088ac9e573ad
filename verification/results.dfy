/** Failure-carrying wrappers shared by every module of the model. */
module Results {

  /** An optional value: Go's `(value, ok)` pairs and nil pointers. */
  datatype Option<+T> = None | Some(value: T)

  /** A value or an error: Go's `(value, err)` pairs. */
  datatype Result<+T, +E> = Ok(value: T) | Err(error: E)
}
