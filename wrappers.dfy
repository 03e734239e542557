/** The optional value used wherever the source has a nilable pointer or error. */
module Wrappers {

  datatype Option<+T> = None | Some(value: T)
}
