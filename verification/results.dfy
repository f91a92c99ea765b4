/** Optional values and success/failure results, used for the address parser's
    answer and for construction-time validation errors. */
module Results {

  /** A value that may be absent, such as the outcome of parsing a URI. */
  datatype Option<+T> = None | Some(value: T)

  /** Either a value or an error; the adapter's constructor throws where this is `Err`. */
  datatype Result<+T, +E> = Ok(value: T) | Err(error: E)
}
