/** Results of operations that may raise an exception. */
module Wrappers {
  datatype Option<+T> = None | Some(value: T)
}
