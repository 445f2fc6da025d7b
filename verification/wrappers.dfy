/** Failure-carrying values shared by every module of the model.
    A Kotlin `require(...)`/`check(...)` that throws becomes a `Failure`
    carrying the exception message; a nullable Kotlin value becomes an `Option`. */
module Wrappers {

  datatype Option<+T> = None | Some(value: T)

  datatype Result<+T> = Success(value: T) | Failure(error: string)
}
