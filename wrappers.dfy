/** The optional value used for C's nullable pointers and strings. */
module Wrappers {
  datatype Option<T> = None | Some(value: T)
}
