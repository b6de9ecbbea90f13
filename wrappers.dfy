/** The optional value used where JavaScript yields `undefined`. */
module Wrappers {
  datatype Option<T> = None | Some(value: T)
}
