/** The optional value used for Python's `None` return and for a foreign call that raised. */
module Wrappers {

  datatype Option<+T> = None | Some(value: T)
}
