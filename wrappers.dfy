/** The optional value used for Python's `None` results and `None` defaults. */
module Wrappers {

  datatype Option<+T> = None | Some(value: T)
}
