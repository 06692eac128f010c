/** The optional result shared by every module: None where the source
    returns None or fails an assertion. */
module Wrappers {
  datatype Option<T> = None | Some(value: T)
}
