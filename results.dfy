/** Failure-compatible wrappers and the errors the retention helpers raise. */
module Results {

  datatype Option<+T> = None | Some(value: T)

  /** Every exception the modelled helpers can raise, one constructor each. */
  datatype Error =
    | NoTimestamp               // AttributeError: the regex found no timestamp, `.group()` on None
    | InvalidTimestamp          // ValueError: `strptime` rejected the matched digits
    | UnknownInterval           // CommandError("Unknown backup interval")
    | DateOutOfRange            // OverflowError: datetime arithmetic left years 1..9999
    | MissingSetting(key: string) // KeyError: a mandatory retention tier is absent

  datatype Result<+T> = Ok(value: T) | Err(error: Error) {

    predicate IsFailure() {
      Err?
    }

    function PropagateFailure<U>(): Result<U>
      requires Err?
    {
      Err(error)
    }

    function Extract(): T
      requires Ok?
    {
      value
    }
  }

  /** The zero- or one-element list an optional hit contributes. */
  function OptionToSeq<T>(o: Option<T>): (s: seq<T>)
    ensures o.None? ==> s == []
    ensures o.Some? ==> s == [o.value]
  {
    match o
    case None => []
    case Some(v) => [v]
  }
}
