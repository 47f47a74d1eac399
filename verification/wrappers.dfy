/** Python's `None`-or-value, as used for `store_contact` and `stored_email`. */
module Wrappers {

  datatype Option<+T> = None | Some(value: T)
}
