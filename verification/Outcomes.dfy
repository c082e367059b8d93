/** Failure-compatible results, and the errors the formatter throws. */
module Outcomes {

  datatype Option<+T> = None | Some(value: T)

  datatype Result<+T, +E> = Ok(value: T) | Err(error: E)
  {
    predicate IsFailure() {
      Err?
    }

    function PropagateFailure<U>(): Result<U, E>
      requires Err?
    {
      Err(error)
    }

    function Extract(): T
      requires Ok?
    {
      value
    }
  }

  /** The messages of `FormatError`, as a datatype. */
  datatype FormatError =
    | UnmatchedOpen
    | UnmatchedClose
    | InvalidIndex
    | ManualToAutomatic
    | AutomaticToManual
    | IndexOutOfRange
    | InvalidFill
    | NeedsNumeric(spec: char)
    | NeedsSigned(spec: char)
    | NumberTooBig
    | NegativePrecision
    | PrecisionNotInteger
    | MissingPrecision
    | PrecisionNeedsFloat
    | UnknownTypeCode(code: char, kind: string)
    | NullString
    | Foreign(text: string)
}
