/** Failure-carrying return values shared by the models: an optional value, a value or an
    error, and a check that passes or fails with an error. */
module Results {

  /** A value that may be absent (JavaScript `undefined`, a `null` attribute). */
  datatype Option<+T> = None | Some(value: T)

  /** A computation that returns a value or raises an error. */
  datatype Result<+T, +E> = Success(value: T) | Failure(error: E)

  /** A check that returns normally or raises an error. */
  datatype Outcome<+E> = Pass | Fail(error: E)
}
