/** The absent-or-present value used for `String.prototype.match` results and nullable JSON fields. */
module Wrappers {
  datatype Option<+T> = None | Some(value: T)
}
