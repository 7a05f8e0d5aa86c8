/** Failure-compatible result types. A Python exception, or a Rust `Err`, is a failure here. */
module Wrappers {

  /** A value, or nothing because the computation raised. */
  datatype Option<+T> = None | Some(value: T) {
    predicate IsFailure() { None? }

    function PropagateFailure<U>(): Option<U>
      requires None?
    {
      None
    }

    function Extract(): T
      requires Some?
    {
      value
    }
  }

  /** The result of a procedure that returns no value but may raise. */
  datatype Outcome = Pass | Raised {
    predicate IsFailure() { Raised? }

    function PropagateFailure(): Outcome
      requires Raised?
    {
      this
    }
  }
}
