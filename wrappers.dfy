/** The optional value that stands for Ruby's `nil`. */
module Wrappers {
  datatype Option<+T> = None | Some(value: T)
}
