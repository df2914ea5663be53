/** The optional value used wherever the source yields `null`, `undefined` or a non-integer. */
module Wrappers {

  datatype Option<+T> = None | Some(value: T)
}
