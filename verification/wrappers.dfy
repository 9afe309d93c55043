/** Failure-carrying results shared by the whole model: `Option` stands for a Java
    reference that may be null, `Result` for a call that may throw. */
module Wrappers {

  datatype Option<+T> = None | Some(value: T)

  /** The Java runtime exceptions the modelled code can raise. */
  datatype Exception =
    | NullPointer
    | StringIndexOutOfBounds
    | Arithmetic

  datatype Result<+T> = Success(value: T) | Failure(error: Exception)
}
