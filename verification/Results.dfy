/** Outcomes of operations that the C++ source ends with an exception. */
module Results {

  datatype Result<+T, +E> = Ok(value: T) | Err(error: E)

  datatype Option<+T> = None | Some(value: T)
}
