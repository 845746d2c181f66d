/** The optional value used for React state that may be `undefined` and for
    searches that may find nothing. */
module Wrappers {
  datatype Option<+T> = None | Some(value: T)
}
