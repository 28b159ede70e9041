/** The optional value used where the editor's code reads an array slot that may be `undefined`. */
module Wrappers {

  datatype Option<+T> = None | Some(value: T)

}
