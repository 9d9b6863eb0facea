/** Option and outcome values used where the C# code returns null or throws. */
module Results {

  datatype Option<+T> = None | Some(value: T)

  /** The result of a check that either passes or fails with an error value
      (the C# code throws the error instead of returning it). */
  datatype Outcome<+E> = Pass | Fail(error: E)

  /** A value or an error. */
  datatype Result<+T, +E> = Ok(value: T) | Err(error: E)
}
