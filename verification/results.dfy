/** Optional values and error-carrying results, as Go's `(T, error)` pairs. */
module Results {

  datatype Option<+T> = None | Some(value: T)

  /** A value, or the text of the Go `error` that replaced it. */
  datatype Result<+T> = Ok(value: T) | Err(error: string)
}
