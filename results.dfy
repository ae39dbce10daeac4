/** Error-carrying results shared by every module of the model. */
module Results {

  /** The `(value, error)` pair a Go function returns: either a value or an error message. */
  datatype Result<+T> = Ok(value: T) | Err(msg: string) {
    predicate IsFailure() { Err? }

    function PropagateFailure<U>(): Result<U>
      requires Err?
    {
      Err(msg)
    }

    function Extract(): T
      requires Ok?
    {
      value
    }
  }

  /** The outcome of an operation that returns only a Go `error`. */
  datatype Outcome = Success | Failure(msg: string)

  /** A value that may be absent (a Go `nil` result). */
  datatype Option<+T> = None | Some(value: T)
}
