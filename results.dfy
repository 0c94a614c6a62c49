/** Failure-carrying values used across the model: an optional value (a
    TypeScript `T | null` or an optional property) and the outcome of a call
    that either returns a value or throws. */
module Results {

  datatype Option<+T> = None | Some(value: T)

  datatype Result<+T, +E> = Ok(value: T) | Err(error: E)
}
