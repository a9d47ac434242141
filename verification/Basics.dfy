/** Types that several components share. */
module Basics {

  datatype Option<+T> = None | Some(value: T)

  type Byte = b: int | 0 <= b <= 0xff

  /** A UTF-16 code unit. */
  type Unit = u: int | 0 <= u < 0x10000

  /** The number of UTF-16 code units of c. */
  function Units(c: int): (u: nat)
    ensures 1 <= u <= 2
  {
    if c > 0xffff then 2 else 1
  }
}
