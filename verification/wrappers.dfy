/** The optional result used where the C code returns a NULL-able or
    "not found" answer. */
module Wrappers {

  datatype Option<+T> = None | Some(value: T)
}
