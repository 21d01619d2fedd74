/** The null-or-value results of the dialog system, as an Option. */
module Wrappers {

  /** `None` models a C# `null` result; `Some(v)` a non-null one. */
  datatype Option<+T> = None | Some(value: T)
}
