/** Optional values and results with an error, used where the synchroniser
    looks something up or stops with an error. */
module Results {

  datatype Option<T> = None | Some(value: T)

  datatype Result<T, E> = Success(value: T) | Failure(error: E)
}
