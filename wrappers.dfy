/** Option, as the settings code uses it for "maybe absent" values. */
module Wrappers {
  datatype Option<+T> = None | Some(value: T)
}
