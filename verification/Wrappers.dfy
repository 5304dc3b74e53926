/** A value that may be absent: a C pointer that may be NULL, or a search that may fail. */
module Wrappers {
  datatype Option<+T> = None | Some(value: T)
}
