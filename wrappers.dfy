/** The optional value used for every parse that may fail. */
module Wrappers {
  datatype Option<+T> = None | Some(value: T)
}
