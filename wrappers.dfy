/** The optional value used for C's nullable pointers and for parse results. */
module Wrappers {
  datatype Option<+T> = None | Some(value: T)
}
