/** Option: a value that may be absent (a JavaScript property set to `undefined`). */
module Wrappers {
  datatype Option<+T> = None | Some(value: T)
}
