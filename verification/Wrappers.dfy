/** Stock option type, and the byte strings used by every other module. */
module Wrappers {

  datatype Option<+T> = None | Some(value: T)

  type Byte = b: int | 0 <= b < 256

  type Bytes = seq<Byte>
}
