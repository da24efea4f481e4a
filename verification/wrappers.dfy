/** The optional value used wherever the modelled code reads a field that may be missing. */
module Wrappers {

  datatype Option<+T> = None | Some(value: T)
}
