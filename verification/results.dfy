/** Failure-compatible wrappers shared by the model: an optional value and a
    success-or-error outcome. */
module Results {

  /** A value that may be absent, such as a JSON object key that is not present. */
  datatype Option<+T> = None | Some(value: T)

  /** The outcome of an operation that can stop with an error instead of a value. */
  datatype Result<+T, +E> = Ok(value: T) | Err(error: E)
}
