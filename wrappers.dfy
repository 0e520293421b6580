/** Optional values and error-carrying results shared by every module. */
module Wrappers {
  datatype Option<T> = None | Some(value: T)
  {
    predicate IsSome() { Some? }
  }

  /** A Java/Kotlin exception is modelled as an `Err` carrying its class name. */
  datatype Exception =
    | NullPointer
    | InvalidParameter
    | IllegalArgument
    | IllegalState
    | IndexOutOfBounds
    | NumberFormat
    | Arithmetic
    | InvalidType
    | Runtime(message: string)
    /** Not a Java exception: a loop that the random draws given to the model did not bring to its end. */
    | Unfinished

  datatype Result<T> = Ok(value: T) | Err(error: Exception)
  {
    predicate IsOk() { Ok? }
  }

  datatype Outcome = Pass | Fail(error: Exception)

  /** The exception Kotlin raises when a `lateinit` property is read before it is set. */
  const UNINITIALIZED: Exception := Runtime("UninitializedPropertyAccessException")
}
