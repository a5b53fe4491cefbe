/** Failure-carrying values used across the model: an optional value, and the
    outcome of an operation that either yields a value or throws an Error whose
    message the callers inspect. */
module Results {

  datatype Option<+T> = None | Some(value: T)

  /** `Err(message)` stands for `throw new Error(message)`. */
  datatype Result<+T> = Ok(value: T) | Err(message: string)
}
