/** Types every part of the model uses. */
module Basics {
  datatype Option<+T> = None | Some(value: T)

  type Addr = string

  type Byte = b: int | 0 <= b < 256

  type Bytes = seq<Byte>
}
