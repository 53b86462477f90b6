/** The optional value used for a source that may not open and for the
    C functions that return a null pointer. */
module Wrappers {

  datatype Option<+T> = None | Some(value: T)
}
