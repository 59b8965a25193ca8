/** The optional value used throughout for the source's `std::optional`, for
    null-able pointers returned by lookups, and for decoders that may refuse
    their input. */
module Wrappers {
  datatype Option<+T> = None | Some(value: T) {
    predicate IsFailure() { None? }

    function PropagateFailure<U>(): Option<U>
      requires None?
    {
      None
    }

    function Extract(): T
      requires Some?
    {
      value
    }
  }
}
