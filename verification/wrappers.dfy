/**
  The optional-value datatype used where a search may come back empty-handed,
  and the outcome of a call that may throw.
*/
module Wrappers {

  datatype Option<+T> = None | Some(value: T)

  /** A call that either returns a value or throws an error, named by its code. */
  datatype Outcome<+T> = Returned(value: T) | Threw(error: string)

}
