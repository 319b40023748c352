/** Failure-carrying values used for the routes' error responses. */
module Results {

  datatype Option<+T> = None | Some(value: T)

  /** The outcome of an operation that produces a new value or fails with an error. */
  datatype Result<+T, +E> = Ok(value: T) | Err(error: E)

  /** The outcome of an operation that changes state in place or fails with an error. */
  datatype Outcome<+E> = Pass | Fail(error: E)
}
