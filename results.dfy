/** A value-or-error result, standing in for the exceptions the pipeline raises, and an optional value. */
module Results {
  datatype Result<+T, +E> = Ok(value: T) | Err(error: E)

  datatype Option<+T> = None | Some(value: T)
}
