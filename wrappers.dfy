/** The optional value used for parse results and missing files. */
module Wrappers {

  datatype Option<+T> = None | Some(value: T)
}
