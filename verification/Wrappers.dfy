/** The Some/None datatype used for the source's optional values (SQL NULL, Python None). */
module Wrappers {
  datatype Option<+T> = None | Some(value: T)
}
