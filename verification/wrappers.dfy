/** An optional value: `None` stands for Python's `None`, a missing
    dictionary entry, or an operation that raised. */
module Wrappers {
  datatype Option<+T> = None | Some(value: T)
}
