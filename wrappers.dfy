/** The Option datatype used for operations of the monitor that can raise. */
module Wrappers {

  /** `None` means there is no value (a call that raised, or nothing to report); `Some(v)` carries `v`. */
  datatype Option<+T> = None | Some(value: T)
}
