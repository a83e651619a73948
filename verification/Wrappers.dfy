/** The optional value used for nullable pointers and lock holders. */
module Wrappers {
  datatype Option<+T> = None | Some(value: T)
}
