/** Nullable values and operation outcomes shared by every layer of the model. */
module Common {

  /** A PHP nullable value (`?T`): `null` is `None`. */
  datatype Option<+T> = None | Some(value: T)

  /** The outcome of an operation that may throw: `Failure` carries what was thrown. */
  datatype Result<+R, +E> = Success(value: R) | Failure(error: E)
}
