/** The outcome of an operation that can throw: a value, or the error it raised. */
module Results {

  datatype Result<+T, +E> = Ok(value: T) | Err(error: E)

}
