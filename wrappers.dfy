/** The Option datatype: `None` stands for an operation that raised. */
module Wrappers {
  datatype Option<+T> = None | Some(value: T)
}
