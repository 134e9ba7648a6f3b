/** The optional-value datatype used throughout the model, in place of
    Python's `None`. It is failure-compatible, so `var x :- e; ...` can be
    used to thread a parse that may give up. */
module Wrappers {

  datatype Option<+T> = None | Some(value: T) {

    predicate IsFailure() {
      None?
    }

    function PropagateFailure<U>(): Option<U>
      requires None?
    {
      None
    }

    function Extract(): T
      requires Some?
    {
      value
    }
  }
}
