/** The optional value used for Go's nil pointers, empty selections and parse errors. */
module Wrappers {
  datatype Option<+T> = None | Some(value: T)
}
