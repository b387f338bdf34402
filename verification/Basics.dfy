/** Machine integers with their wrap-around, and optional values. */
module Basics {
  const INT32_RANGE := 0x8000_0000

  type byte = x: int | 0 <= x < 0x100
  type uint32 = x: int | 0 <= x < 0x1_0000_0000
  type uint64 = x: int | 0 <= x < 0x1_0000_0000_0000_0000
  type int32 = x: int | -0x8000_0000 <= x < 0x8000_0000
  type int64 = x: int | -0x8000_0000_0000_0000 <= x < 0x8000_0000_0000_0000
  type Bytes = seq<byte>

  datatype Option<+T> = None | Some(value: T)

  /** Unsigned 32-bit arithmetic wraps around. */
  function Wrap32(x: int): uint32 {
    x % 0x1_0000_0000
  }

  lemma WrapAdd(x: int, y: int)
    ensures Wrap32(Wrap32(x) + y) == Wrap32(x + y)
    ensures 0 <= x < 0x1_0000_0000 ==> Wrap32(x) == x
  {
  }

  function Increment32(x: uint32): uint32 {
    Wrap32(x + 1)
  }

  function Decrement32(x: uint32): uint32 {
    Wrap32(x - 1)
  }

  /** Conversion of an unsigned 32-bit value to a signed 32-bit int. */
  function ToInt32(x: uint32): int {
    if x < 0x8000_0000 then x else x - 0x1_0000_0000
  }

  /** Unsigned 64-bit arithmetic wraps around; so does a cast of a signed value. */
  function Wrap64(x: int): uint64 {
    x % 0x1_0000_0000_0000_0000
  }
}
