/** The Option datatype used across the model for values that may be absent
    (`undefined` / `null` in the source). */
module Wrappers {
  datatype Option<+T> = None | Some(value: T)
}
