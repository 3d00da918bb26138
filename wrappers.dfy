/** Failure-carrying return values shared by every module: the C# code signals
    absence with null and failure with exceptions; the model returns these instead. */
module Wrappers {

  datatype Option<+T> = None | Some(value: T)

  datatype Result<+T, +E> = Success(value: T) | Failure(error: E)
}
