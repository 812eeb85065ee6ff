/** The absent-or-present value that `Array.prototype.find` returns
    (`undefined` or a record). */
module Wrappers {

  datatype Option<+T> = None | Some(value: T)
}
