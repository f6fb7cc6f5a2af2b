/** The optional value used for "associated network or none" and for the
    result of a queue receive. */
module Wrappers {
  datatype Option<+T> = None | Some(value: T)
}
