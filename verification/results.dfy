/** Optional values and success/failure results used throughout the model. */
module Results {

  /** A value that may be absent (Swift's `Optional`). */
  datatype Option<+T> = None | Some(value: T)

  /** The outcome of a step that can abort the run (the source's `fatalError()`). */
  datatype Result<+T, +E> = Ok(value: T) | Err(error: E)
}
