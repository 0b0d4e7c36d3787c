/** Optional values, results, and the exceptions the scoring code and the matrix
    parser can raise, as values. */
module Errors {

  /** A value that may be absent (Python's `None`). */
  datatype Option<T> = None | Some(value: T)

  /** The outcome of an operation that may raise. */
  datatype Result<T, E> = Ok(value: T) | Err(error: E)

  /** The exceptions of `ScoringScheme` and `smith_waterman`. */
  datatype Error =
    | DoubleGap        // ValueError: a column with a gap in both sequences
    | UnknownSymbol    // AssertionError: a symbol missing from the matrix index
    | IndexOutOfRange  // IndexError: an index past the end of the matrix or symbol array
    | MissingKey       // KeyError: a row symbol that the header does not name
    | EndOfInput       // IndexError: the input ends before a header line
    | EmptyRow         // IndexError: `pop(0)` on a row line without tokens
    | BadNumber        // ValueError: a row entry that is not a number
}
