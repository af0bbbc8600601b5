/** Outcome types shared by the model: a Swift throw or trap becomes a Failure. */
module Results {

  /** A value that may be absent, as Swift's optionals. */
  datatype Option<+T> = None | Some(value: T)

  /** Either the new state of an operation or the error it raised. */
  datatype Result<+T, +E> = Success(value: T) | Failure(error: E)
}
