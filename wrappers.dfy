/** The optional value used wherever the source returns an `Optional` or
    a possibly-absent result. */
module Wrappers {

  datatype Option<+T> = None | Some(value: T)
}
