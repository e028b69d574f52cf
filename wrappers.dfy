/** The Option datatype used for the partial fixed-format timestamp parser. */
module Wrappers {

  datatype Option<+T> = None | Some(value: T)
}
