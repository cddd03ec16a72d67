/** The result types shared by the other modules. */
module Wrappers {

  /** A value that may be absent: a null pointer, `std::nullopt`, or a failed lookup. */
  datatype Option<+T> = None | Some(value: T)
}
