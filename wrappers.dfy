/** Python's `None`-or-value results, as the usual Option datatype. */
module Wrappers {

  datatype Option<+T> = None | Some(value: T)
}
