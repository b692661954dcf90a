/** Machine integers as ranges, and optional results. */
module Basics {

  type Byte = n: nat | n < 0x100
  type Word = n: nat | n < 0x1_0000
  type Dword = n: nat | n < 0x1_0000_0000

  datatype Option<+T> = None | Some(value: T)
}
