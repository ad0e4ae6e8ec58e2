/** The result of an operation that can fail, used where the source throws. */
module Wrappers {
  datatype Option<+T> = None | Some(value: T)
}
