/** Small helper datatype shared by the other modules. */
module Wrappers {

  /** A value that may be absent: a SQL NULL, a missing row or a missing session user. */
  datatype Option<+T> = None | Some(value: T)

}
