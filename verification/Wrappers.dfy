/** The optional values used throughout the model: a null pointer, a refused
    capability or a failed parse is None. */
module Wrappers {
  datatype Option<+T> = None | Some(value: T)
}
