/** A value that may be absent: `undefined` or `null` on the JavaScript side. */
module Wrappers {

  datatype Option<+T> = None | Some(value: T)
}
