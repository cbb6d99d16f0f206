/** Optional values and error-carrying results, standing in for Go's
    `(value, error)` return pairs and nil-able fields. */
module Results {

  datatype Option<+T> = None | Some(value: T)

  /** A Go `(T, error)` pair where exactly one side is meaningful. */
  datatype Result<+T> = Ok(value: T) | Err(error: string)
}
