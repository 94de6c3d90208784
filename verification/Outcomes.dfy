/** Values that may be missing, and calls that may throw */
module Outcomes {

  datatype Option<+T> = None | Some(value: T)

  datatype Outcome<+T> = Returned(value: T) | Thrown {
    predicate IsFailure() {
      Thrown?
    }

    function PropagateFailure<U>(): Outcome<U>
      requires Thrown?
    {
      Thrown
    }

    function Extract(): T
      requires Returned?
    {
      value
    }
  }
}
