/** The absent-or-present value used for the nullable fields of the cipher
    and for operations of the host that may throw. */
module Wrappers {
  datatype Option<+T> = None | Some(value: T)
}
