/** Types shared by all modules. */
module Basics {

  datatype Option<+T> = None | Some(value: T)

  const TWO_32 := 0x1_0000_0000

  type Octet = x: int | 0 <= x < 0x100
  type Half = x: int | 0 <= x < 0x1_0000
  type U32 = x: int | 0 <= x < TWO_32
}
