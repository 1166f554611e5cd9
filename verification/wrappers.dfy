/** The usual optional-value datatype, standing in for a C pointer that may be NULL
    and for a Python value that may be absent. */
module Wrappers {

  datatype Option<+T> = None | Some(value: T)
}
