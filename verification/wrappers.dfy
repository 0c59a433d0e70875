/** Small helper datatypes shared by the other modules. */
module Wrappers {

  /** An optional value. As an error result, `None` stands for Go's `nil` error. */
  datatype Option<+T> = None | Some(value: T)
}
