/** Optional values and outcomes that may fail: `null` returns and thrown errors of the source. */
module Results {

  datatype Option<T> = None | Some(value: T)

  datatype Result<T, E> = Success(value: T) | Failure(error: E)

}
