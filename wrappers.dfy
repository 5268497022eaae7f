/** The optional value used where the source returns a row or None. */
module Wrappers {

  datatype Option<+T> = None | Some(value: T)
}
