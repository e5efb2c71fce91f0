/** The optional-value type shared by the store and the consensus state. */
module Wrappers {

  /** A value that may be absent: the program's `undefined` / `null`. */
  datatype Option<+T> = None | Some(value: T)
}
