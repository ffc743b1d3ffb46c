/** Option and Result types shared by the X12 model, and the two kinds of
    exception the factory throws. */
module Wrappers {

  datatype Option<T> = None | Some(value: T)

  /** The exception classes the factory can raise: `FormatException` for
      structural problems, `ArgumentException` for empty input, bad schemas
      and values that fail their length checks. */
  datatype Error = FormatError | ArgumentError

  datatype Result<T> = Success(value: T) | Failure(error: Error)
}
