/** The optional value used where the tool reads a field that may be missing. */
module Wrappers {

  datatype Option<+T> = None | Some(value: T)
}
