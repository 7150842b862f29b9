/** The optional value used for library calls that may fail. */
module Wrappers {

  datatype Option<+T> = None | Some(value: T)
}
