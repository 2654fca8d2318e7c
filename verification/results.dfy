/** Failure-carrying result types used across the model: `Option` stands for a
    Python value that may be `None`, `Result` for a computation that either
    returns a value or raises an exception. */
module Results {

  datatype Option<+T> = None | Some(value: T)

  datatype Result<+R, +E> = Ok(value: R) | Err(error: E)
}
