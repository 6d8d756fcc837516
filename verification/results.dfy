/** Failure-carrying values shared by the other modules: an optional value and
    a success-or-error outcome (the latter stands for a Python call that either
    returns or raises). */
module Results {

  datatype Option<+T> = None | Some(value: T)

  datatype Result<+T, +E> = Success(value: T) | Failure(error: E)
}
