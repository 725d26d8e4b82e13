/** The Some/None datatype used wherever the Ruby code can produce `nil`. */
module Wrappers {

  datatype Option<+T> = None | Some(value: T)
}
