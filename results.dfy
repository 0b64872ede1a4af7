/** Outcomes of the codec's operations. Every exception the C# code throws on
    its error paths becomes an `Err` carrying the kind of failure. */
module Results {

  datatype Option<T> = None | Some(value: T)

  datatype Error =
    | EndOfStream                       // the input ended before the value did
    | UnexpectedMarker(marker: int)     // a format byte outside the family the read expects
    | LengthMismatch(expected: int, actual: int)  // a type header whose count differs from FieldCount
    | ArgumentOutOfRange                // an index or length rejected by a range check
    | InvalidOperation                  // InvalidOperationException: an operation the current state or kind does not allow
    | UnexpectedKind                    // a plain Exception: the reader was asked for a kind it cannot read here
    | NotImplemented                    // decimal, ReadAny, SkipValue
    | UnassignedMember                  // a required member never arrived

  datatype Result<T> = Ok(value: T) | Err(error: Error)
  {
    predicate IsFailure() { Err? }

    function PropagateFailure<U>(): Result<U>
      requires Err?
    {
      Err(error)
    }

    function Extract(): T
      requires Ok?
    {
      value
    }
  }
}
