/** The optional value used where the source either produces something or fails. */
module Wrappers {

  datatype Option<+T> = None | Some(value: T)
}
