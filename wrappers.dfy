/** Optional values, standing for the source's nullable references and `Optional`s. */
module Wrappers {

  datatype Option<T> = None | Some(value: T)

  /** The outcome of an operation that can raise one of the source's runtime exceptions. */
  datatype Result<T> = Success(value: T) | Failure(error: Exception)

  datatype Exception =
    | IndexOutOfBounds(index: int)
    | DivideByZero
    | UnsupportedOperation
    | NullPointer
}
