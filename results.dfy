/** Failure-carrying values used in place of the program's early `return False`
    paths and of the bare `{}` that an empty merge returns. */
module Results {

  datatype Option<+T> = None | Some(value: T)

  datatype Result<+T, +E> = Success(value: T) | Failure(error: E)
}
