/** The optional value used wherever the source can produce `undefined`. */
module Wrappers {

  datatype Option<+T> = None | Some(value: T)
}
