/** Optional values and outcomes of operations that can throw or reject. */
module Results {

  /** A value that may be missing, like a lookup that can yield `undefined`. */
  datatype Option<+T> = None | Some(value: T)

  /** The outcome of an operation that either returns a value or throws an error. */
  datatype Result<+T, +E> = Ok(value: T) | Err(error: E)
}
