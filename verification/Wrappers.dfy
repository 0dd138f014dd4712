/** A value that may be absent: a null pointer or a reported failure of the source. */
module Wrappers {

  datatype Option<+T> = None | Some(value: T)
}
