/** The optional value used where the program may produce nothing. */
module Wrappers {

  datatype Option<+T> = None | Some(value: T)
}
