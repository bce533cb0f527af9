/** The optional-value type shared by the item list and the store. */
module Wrappers {

  /** A value that may be absent: JavaScript's `undefined`/`null` or an absent property. */
  datatype Option<+T> = None | Some(value: T)
}
