/** The optional value used wherever the JavaScript source has `undefined` or a falsy slot. */
module Wrappers {
  datatype Option<+T> = None | Some(value: T)
}
