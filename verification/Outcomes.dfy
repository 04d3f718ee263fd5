/** Results of functions that may throw, and optional values. */
module Outcomes {

  datatype Option<+T> = None | Some(value: T)

  /** `Throw` stands for an exception that leaves the function. */
  datatype Outcome<+T> = Value(value: T) | Throw {
    predicate IsFailure() {
      Throw?
    }

    function PropagateFailure<U>(): Outcome<U>
      requires Throw?
    {
      Throw
    }

    function Extract(): T
      requires Value?
    {
      value
    }
  }
}
