/** The absent-or-present value the side panel expresses with `null`. */
module Wrappers {
  datatype Option<+T> = None | Some(value: T)
}
