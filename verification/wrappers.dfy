/** Option type used for the `npos` results of string searches and for missing responses. */
module Wrappers {
  datatype Option<+T> = None | Some(value: T)
}
