/** The optional value returned by a regular-expression match attempt. */
module Wrappers {
  datatype Option<T> = None | Some(value: T)
}
