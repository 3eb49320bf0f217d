/** Optional and error-carrying values used by the model: a value that may
    be absent and a value that may instead be an error description. */
module Results {

  datatype Option<+T> = None | Some(value: T)

  datatype Result<+T, +E> = Ok(value: T) | Err(error: E)
}
