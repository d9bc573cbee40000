// Option/Result wrappers standing in for C# null and for the exceptions the
// models throw.

module Wrappers {

  /** A nullable reference: `None` is C# `null`. */
  datatype Option<T> = None | Some(value: T)

  /** The exceptions the modelled code raises, by .NET exception type. */
  datatype Error =
    | ArgumentNull           // ArgumentNullException (SentinelHelper.ArgumentNull)
    | ArgumentOutOfRange     // ArgumentOutOfRangeException (range checks, Substring, list index)
    | IndexOutOfRange        // IndexOutOfRangeException (an array index)
    | InvalidEnum            // SentinelHelper.IsEnumValid on an undefined enum value
    | InvalidIdentifier      // InvalidIdentifierNameException
    | InvalidFieldName       // InvalidFieldIdentifierNameException
    | InvalidPath            // InvalidPathNameException
    | NullReference          // NullReferenceException
    | InvalidOperation       // InvalidOperationException (Max/Min of an empty sequence)
    | Format                 // FormatException (decimal.Parse / DateTime.Parse)
    | Overflow               // OverflowException (decimal.Parse of a number outside decimal's range)
    | DuplicateKey           // ArgumentException from ToDictionary on a repeated key
    | Generic                // a plain Exception raised by the model (Piece.GetValue)

  /** The value of an operation, or the exception it throws. */
  datatype Result<T> = Ok(value: T) | Fail(error: Error)
  {
    predicate IsFailure() { Fail? }
  }

  /** The outcome of a void operation (a setter): it returns or it throws. */
  datatype Outcome = Pass | Failure(error: Error)
}
