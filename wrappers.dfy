/** A value that may be absent: PHP's `null` next to a string. */
module Wrappers {

  datatype Option<+T> = None | Some(value: T)
}
