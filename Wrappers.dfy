/** Small helper datatypes shared by the request handlers. */
module Wrappers {

  /** A value that may be missing, such as an absent request field. */
  datatype Option<+T> = None | Some(value: T)
}
