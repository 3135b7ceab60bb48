/** A value that may be absent, as std::optional or a null result. */
module Wrappers {
  datatype Option<+T> = None | Some(value: T)
}
