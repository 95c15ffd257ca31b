/** Failure-carrying datatypes shared by the model: an optional value and a
    value-or-error result, standing in for PHP's `null` and thrown exceptions. */
module Results {

  datatype Option<+T> = None | Some(value: T)

  datatype Result<+R, +E> = Success(value: R) | Failure(error: E)

  /** The outcome of a call that returns nothing but may throw. */
  datatype Outcome<+E> = Pass | Fail(error: E)
}
