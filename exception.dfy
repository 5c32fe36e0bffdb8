/** The error record every failure of the client carries, and the outcome of the
    client's operations. */
module Errors {
  import opened Php

  /** Code of the exception raised when the connector has no API key. */
  const INVALID_API_KEY: int := 0

  /** `Communibase\Exception`: a message, a code and the API's `errors` array. */
  datatype Exception = Exception(message: string, code: int, errors: Entries)
  {
    /** `getErrors()`. */
    function GetErrors(): Entries
    {
      errors
    }
  }

  /** `new Exception($message, $code, null, $errors)`, with PHP's defaults: code 0, no errors. */
  function NewException(message: string, code: int := 0, errors: Entries := []): Exception
  {
    Exception(message, code, errors)
  }

  /** What an operation can throw. */
  datatype Thrown =
    | Raised(e: Exception)              // Communibase\Exception
    | InvalidArgument(message: string)  // \InvalidArgumentException
    | ArgumentError                     // a mistyped constructor argument: PHP's TypeError for the
                                        // `array $errors` hint, or the \Error the built-in
                                        // \Exception constructor throws for an array message or
                                        // a non-integer code

  /** An operation's outcome: its return value, or what it throws. */
  datatype Result<+T> = Ok(value: T) | Err(error: Thrown)

  /** `throw new Exception($message, $code)`. */
  function Fail<T>(message: string, code: int := 0): Result<T>
  {
    Err(Raised(NewException(message, code)))
  }

  /** The constructor keeps message, code and errors as given; errors default to the
      empty array and the code to 0. */
  lemma ConstructorKeepsFields(message: string, code: int, errors: Entries)
    ensures NewException(message, code, errors).GetErrors() == errors
    ensures NewException(message, code, errors).message == message
    ensures NewException(message, code, errors).code == code
    ensures NewException(message).GetErrors() == []
    ensures NewException(message).code == 0
  {
  }

  /** The case the library's own test exercises: `new Exception('message', 0, null, ['test'])`. */
  lemma GivenErrorsAreReturned()
    ensures NewException("message", 0, ListOf([Str("test")])).GetErrors() == [(IntKey(0), Str("test"))]
    ensures NewException("message", 0, ListOf([Str("test")])).message == "message"
    ensures NewException("message", 0, ListOf([Str("test")])).code == 0
  {
  }
}
