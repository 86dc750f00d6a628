/** Failure-carrying values: a nullable reference becomes `Option`, a thrown
    exception becomes the `Failure` side of a `Result`. */
module Wrappers {

  datatype Option<+T> = None | Some(value: T)

  datatype Result<+T, +E> = Success(value: T) | Failure(error: E)
}
