/** The fixed-width unsigned integers of the source, as subset types of `int`. */
module Ints {

  type byte = x: int | 0 <= x < 0x100

  type u16 = x: int | 0 <= x < 0x1_0000

  type u32 = x: int | 0 <= x < 0x1_0000_0000
}
