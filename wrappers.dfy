/** A value that may be absent: an optional argument, or the path whose stat failed. */
module Wrappers {

  datatype Option<+T> = None | Some(value: T)

}
