/** Absence of a value: JavaScript's `undefined` where the source returns or stores it. */
module Wrappers {
  datatype Option<+T> = None | Some(value: T)
}
