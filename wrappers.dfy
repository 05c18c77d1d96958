/** A value that may be absent: JavaScript's null / undefined on a record field. */
module Wrappers {
  datatype Option<+T> = None | Some(value: T)
}
