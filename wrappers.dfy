/** The optional value used for SQL NULL, Python None and Java null. */
module Wrappers {

  datatype Option<+T> = None | Some(value: T)
}
