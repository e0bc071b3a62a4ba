/** The Option datatype used for values a request may or may not carry. */
module Wrappers {

  /** `None` is an absent value; `Some(v)` carries `v`. */
  datatype Option<+T> = None | Some(value: T)
}
