/** Failure-carrying results: the model's stand-ins for a null link and for
    a thrown exception. */
module Outcomes {

  datatype Option<T> = None | Some(value: T)

  datatype Result<T, E> = Success(value: T) | Failure(error: E)
}
