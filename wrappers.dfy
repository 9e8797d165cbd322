/** The optional value used for a cell that may be missing (a NaN in the lap table). */
module Wrappers {

  datatype Option<+T> = None | Some(value: T)
}
