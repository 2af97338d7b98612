/** A value that may be absent: a NULL pointer, or an input that does not parse. */
module Wrappers {

  datatype Option<T> = None | Some(value: T)
}
