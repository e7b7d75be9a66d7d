/** The optional value used in place of a Java null reference. */
module Wrappers {

  /** `None` stands for `null`; `Some(v)` for a non-null reference to `v`. */
  datatype Option<+T> = None | Some(value: T)
}
