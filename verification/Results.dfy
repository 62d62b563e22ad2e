/** Outcome of an operation that throws in the original. */
module Results {
  datatype Option<+T> = None | Some(value: T)
  datatype Result<+T> = Ok(value: T) | Err
}
