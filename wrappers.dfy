/** The optional value used by every parser and lookup of the model. */
module Wrappers {
  datatype Option<+T> = None | Some(value: T)
  {
    /** `None` is the failure that `:-` passes on, like `?` on a Rust `Option`. */
    predicate IsFailure() {
      None?
    }

    function PropagateFailure<U>(): Option<U>
      requires None?
    {
      None
    }

    function Extract(): T
      requires Some?
    {
      value
    }
  }
}
