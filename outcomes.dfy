/** A value or the exception that replaced it.  The Java code reports every
    failure by throwing a RuntimeException; the model returns `Err` instead,
    and `:-` propagates it the way an uncaught exception unwinds. */
module Outcomes {

  datatype Outcome<+T, +E> = Ok(value: T) | Err(error: E) {

    predicate IsFailure() {
      Err?
    }

    function PropagateFailure<U>(): Outcome<U, E>
      requires Err?
    {
      Err(error)
    }

    function Extract(): T
      requires Ok?
    {
      value
    }
  }
}
