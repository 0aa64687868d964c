/** The Option datatype used for operations that can fail without a reason. */
module Wrappers {

  datatype Option<+T> = None | Some(value: T)
}
