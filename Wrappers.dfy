/** Absent-or-present values: Java's `null` and the "no element" outcomes of a scanner. */
module Wrappers {
  datatype Option<+T> = None | Some(value: T)
}
