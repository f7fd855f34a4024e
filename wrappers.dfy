/** Failure-compatible option type shared by the model's modules. */
module Wrappers {

  /** A value that may be absent: JavaScript's `undefined`/`null`, a missing
      request field, a lookup that found nothing, or `NaN` from a parse. */
  datatype Option<+T> = None | Some(value: T) {

    predicate IsFailure() {
      None?
    }

    function PropagateFailure<U>(): Option<U>
      requires None?
    {
      None
    }

    function Extract(): T
      requires Some?
    {
      value
    }
  }
}
