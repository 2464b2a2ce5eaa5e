/** The "absent" result of the source (null or undefined) as an explicit option. */
module Wrappers {
  datatype Option<+T> = None | Some(value: T)
}
