/** The optional value used where the script holds `null` or an unset handle. */
module Wrappers {
  datatype Option<+T> = None | Some(value: T)
}
