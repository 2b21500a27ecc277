/** The absent-or-present value used where the source returns `null` or
    finds no readable file. */
module Wrappers {

  datatype Option<+T> = None | Some(value: T)
}
