/** Optional values and fallible results, used for Python's `dict.get`,
    `None` defaults and raised exceptions. */
module Results {

  datatype Option<+T> = None | Some(value: T)

  datatype Result<+R, +E> = Success(value: R) | Failure(error: E)
}
