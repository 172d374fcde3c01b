/** Kotlin's nullable values (`T?`), as an Option. */
module Wrappers {
  datatype Option<+T> = None | Some(value: T)
}
