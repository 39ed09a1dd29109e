/** The "value or nothing" result the structures return where the
    JavaScript code returns `null`. */
module Wrappers {
  datatype Option<+T> = None | Some(value: T)
}
