/** An optional value: absent, or present with its value. */
module Wrappers {
  datatype Option<+T> = None | Some(value: T)
}
