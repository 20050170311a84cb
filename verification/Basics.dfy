// Types shared by the parts of the project that work on bytes.

module Basics {
  datatype Option<+T> = None | Some(value: T)

  type byte = x: int | 0 <= x < 256
}
