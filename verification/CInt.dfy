/** Fixed-width C integer conversions, written out over Dafny's unbounded integers. */
module CInt {
  type byte = b: nat | b < 256

  const TWO_8: int := 0x100
  const TWO_16: int := 0x1_0000
  const TWO_31: int := 0x8000_0000
  const TWO_32: int := 0x1_0000_0000

  /** Conversion to uint32_t (and to a 32-bit size_t or unsigned). */
  function U32(x: int): nat { x % TWO_32 }

  /** Conversion to int32_t: the two's complement reading of the low 32 bits. */
  function S32(x: int): int {
    if U32(x) < TWO_31 then U32(x) else U32(x) - TWO_32
  }

  function U8(x: int): nat { x % TWO_8 }

  function Min(a: nat, b: nat): nat { if a <= b then a else b }

  function Max(a: nat, b: nat): nat { if a <= b then b else a }

  /** C's truncating signed division and remainder. */
  function CDiv(a: int, b: int): int
    requires b > 0
  {
    if a >= 0 then a / b else -((-a) / b)
  }

  function CMod(a: int, b: int): int
    requires b > 0
  {
    if a >= 0 then a % b else -((-a) % b)
  }
}
