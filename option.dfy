/** The optional value used for partial parses and for missing map entries. */
module Opt {
  datatype Option<T> = None | Some(value: T)
}
