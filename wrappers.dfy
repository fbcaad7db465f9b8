/** The absent-or-present value that stands for the source's `null` results. */
module Wrappers {

  datatype Option<T> = None | Some(value: T)

}
