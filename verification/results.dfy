/** Failure-carrying wrappers used across the model: an optional value (the
    source's `None`) and a success-or-error result (the source's exceptions). */
module Results {

  datatype Option<+T> = None | Some(value: T)

  datatype Result<+R, +E> = Success(value: R) | Failure(error: E)
}
