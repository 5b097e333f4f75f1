/** Success-or-failure values standing in for Python's exceptions. */
module Results {

  /** Python's `None`-or-value. */
  datatype Option<+T> = None | Some(value: T)

  /** `Err` carries the reason the source would raise with. */
  datatype Result<+T> = Ok(value: T) | Err(reason: string) {

    predicate IsFailure() {
      Err?
    }

    function PropagateFailure<U>(): Result<U>
      requires Err?
    {
      Err(reason)
    }

    function Extract(): T
      requires Ok?
    {
      value
    }
  }
}
