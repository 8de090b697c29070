/** The absent-or-present value the client calls and the matcher return. */
module Wrappers {

  datatype Option<+T> = None | Some(value: T)
}
