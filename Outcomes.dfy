/** Option and Result values standing in for the source's null returns and thrown exceptions. */
module Outcomes {

  /** A value that may be absent (a C# `null` or a failed `TryParse`). */
  datatype Option<+T> = None | Some(value: T)

  /** The outcome of an operation that the source ends with `throw`: the exception's message on failure. */
  datatype Result<+T> = Success(value: T) | Failure(message: string)
}
