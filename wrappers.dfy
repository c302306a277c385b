/** The optional value used wherever the Ruby code answers `nil` or `false` for "nothing". */
module Wrappers {

  datatype Option<+T> = None | Some(value: T)
}
