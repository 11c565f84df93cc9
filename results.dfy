/** Failure-compatible result and option types, and the Python exceptions the parser can raise. */
module Results {

  /** The exceptions the parsing code can raise on the inputs it is given.
      ValueError carries the string `float()` refused; KeyError the missing column label;
      LengthMismatch is the ValueError pandas raises when `columns` is given `names` labels for a
      frame of `axis` columns. */
  datatype Error = ValueError(text: string) | IndexError | KeyError(column: nat) | LengthMismatch(axis: nat, names: nat)

  datatype Result<+T> = Ok(value: T) | Err(error: Error) {
    predicate IsFailure() { Err? }
    function PropagateFailure<U>(): Result<U>
      requires Err?
    {
      Err(error)
    }
    function Extract(): T
      requires Ok?
    {
      value
    }
  }

  datatype Option<+T> = None | Some(value: T) {
    predicate IsFailure() { None? }
    function PropagateFailure<U>(): Option<U>
      requires None?
    {
      None
    }
    function Extract(): T
      requires Some?
    {
      value
    }
  }
}
