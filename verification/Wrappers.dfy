/** An optional value: what the C code answers with a NULL pointer or an error code instead. */
module Wrappers {
  datatype Option<T> = None | Some(value: T)
}
