/** The optional value used where the script relies on `undefined`. */
module Wrappers {

  datatype Option<+T> = None | Some(value: T)
}
