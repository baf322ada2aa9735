/** The optional value used wherever the gateway's JavaScript has `undefined` or "not found". */
module Wrappers {
  datatype Option<+T> = None | Some(value: T)
}
