/** The optional value used wherever the C code passes a possibly-NULL node pointer. */
module Wrappers {
  datatype Option<+T> = None | Some(value: T)
}
