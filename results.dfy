/** Optional values and results with an error, used where the Ruby code
    returns nil or raises. */
module Results {

  datatype Option<+T> = None | Some(value: T)

  datatype Result<+T, +E> = Ok(value: T) | Err(error: E)
}
