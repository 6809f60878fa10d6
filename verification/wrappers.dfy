/** Nullable values and exception-free results used throughout the model. */
module Wrappers {

  /** A value that may be absent: C#'s `null` for reference types. */
  datatype Option<+T> = None | Some(value: T)

  /** Either a value or the failure that the C# code would have thrown. */
  datatype Result<+T, +E> = Success(value: T) | Failure(error: E)
}

/** The .NET exception kinds that the modelled code throws, one constructor per kind. */
module Exceptions {

  datatype Exception =
    | ArgumentNull                  // ArgumentNullException
    | Argument                      // ArgumentException (illegal path characters)
    | FileNotFound                  // FileNotFoundException
    | IO                            // IOException or UnauthorizedAccessException (opening the file)
    | Json                          // JsonException (malformed document)
    | Format                        // FormatException (a date DateOnly.Parse rejects)
    | Validation(message: string)   // ValidationException, with its message
    | ArgumentOutOfRange            // ArgumentOutOfRangeException (budget)
    | Overflow                      // OverflowException of the checked (int) cast
}
