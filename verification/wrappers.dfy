/** Python's `None`-or-value, as an explicit datatype. */
module Wrappers {

  datatype Option<+T> = None | Some(value: T)
}
