/** Value types shared by every module of the model.

    C# references that may be null become `Option` (`None` is null), calls that
    may throw become `Result` (`Err` carries which exception), and the argument
    of an `Equals(object obj)` override becomes `Object`. */
module Common {

  datatype Option<+T> = None | Some(value: T)

  datatype Result<+T, +E> = Ok(value: T) | Err(error: E) {
    predicate IsFailure() { Err? }

    function PropagateFailure<U>(): Result<U, E>
      requires Err?
    {
      Err(error)
    }

    function Extract(): T
      requires Ok?
    {
      value
    }
  }

  /** The argument of `Equals(object obj)`: null, an object that the
      source's type test accepts (`GetType() ==` or `is`), or any other
      object. */
  datatype Object<+T> = Null | SameType(value: T) | OtherType
}
