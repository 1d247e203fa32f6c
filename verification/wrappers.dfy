/** Python's `None`-or-value, used for every attribute the mail server may leave unset. */
module Wrappers {

  datatype Option<+T> = None | Some(value: T)
}
