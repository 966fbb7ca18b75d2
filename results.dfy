/** Optional values and error-carrying results, used where the solver's Python
    code uses `None` or raises an exception. */
module Results {

  datatype Option<T> = None | Some(value: T)

  datatype Result<T, E> = Success(value: T) | Failure(error: E)
}
