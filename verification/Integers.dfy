/** Fixed-width integers and the truncating casts between them (`as i8`, `as u8`, ...). */
module Integers {
  type U8 = x: int | 0 <= x < 0x100
  type U16 = x: int | 0 <= x < 0x1_0000
  type U32 = x: int | 0 <= x < 0x1_0000_0000
  type U64 = x: int | 0 <= x < 0x1_0000_0000_0000_0000
  type I8 = x: int | -0x80 <= x < 0x80
  type I16 = x: int | -0x8000 <= x < 0x8000
  type I32 = x: int | -0x8000_0000 <= x < 0x8000_0000
  type I64 = x: int | -0x8000_0000_0000_0000 <= x < 0x8000_0000_0000_0000
  type I128 = x: int | -0x8000_0000_0000_0000_0000_0000_0000_0000 <= x < 0x8000_0000_0000_0000_0000_0000_0000_0000

  /** The bit pattern of an IEEE 754 double: the model never computes with it. */
  type F64 = U64

  /** The bit pattern of an IEEE 754 single. */
  type F32 = U32

  type Bytes = seq<U8>

  // Truncating casts: the low bits, read as unsigned or as two's complement.

  function AsU8(x: int): (r: U8) { x % 0x100 }

  function AsU16(x: int): (r: U16) { x % 0x1_0000 }

  function AsI8(x: int): (r: I8) { (x + 0x80) % 0x100 - 0x80 }

  function AsI16(x: int): (r: I16) { (x + 0x8000) % 0x1_0000 - 0x8000 }

  function AsI32(x: int): (r: I32) { (x + 0x8000_0000) % 0x1_0000_0000 - 0x8000_0000 }

  function AsI64(x: int): (r: I64) { (x + 0x8000_0000_0000_0000) % 0x1_0000_0000_0000_0000 - 0x8000_0000_0000_0000 }
}
