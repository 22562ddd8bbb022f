/** The optional-value datatype used for the source's null / no-call cases. */
module Wrappers {

  datatype Option<+T> = None | Some(value: T)
}
