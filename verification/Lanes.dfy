/** Single 64-bit lanes of the AVX2 and AVX-512 instructions the row kernels use.

A lane is an unsigned 64-bit number; every instruction states its own truncation, so a
kernel written with them loses bits exactly where the hardware would. */
module Lanes {
  import opened Arith

  const ALL_ONES: U64 := 0x1_0000_0000_0000_0000 - 1

  function ToLane(x: int): U64 { x % 0x1_0000_0000_0000_0000 }

  function AddEpi64(a: U64, b: U64): U64 { (a + b) % 0x1_0000_0000_0000_0000 }

  function SubEpi64(a: U64, b: U64): U64 { (a - b) % 0x1_0000_0000_0000_0000 }

  /** Reads only the low dwords of its operands; the 64-bit product is exact. */
  function MulEpu32(a: U64, b: U64): int { (a % 0x1_0000_0000) * (b % 0x1_0000_0000) }

  /** The signed form: the low dwords are two's-complement. */
  function MulEpi32(a: U64, b: U64): U64 { (WrapI32(a) * WrapI32(b)) % 0x1_0000_0000_0000_0000 }

  function SrlEpi64(a: int, k: nat): int
    requires a >= 0
  {
    a / Pow2(k)
  }

  function SllEpi64(a: int, k: nat): U64 { a * Pow2(k) % 0x1_0000_0000_0000_0000 }

  /** The left shift by one dword. */
  function ShiftUp32(a: int): U64 { a * 0x1_0000_0000 % 0x1_0000_0000_0000_0000 }

  function CmpgtEpi64(a: U64, b: U64): U64 { if WrapI64(a) > WrapI64(b) then ALL_ONES else 0 }

  /** All ones for a negative lane, zero otherwise: the arithmetic shift by 63. */
  function SignEpi64(a: U64): U64 { if a < 0x8000_0000_0000_0000 then 0 else ALL_ONES }

  /** A lane under a mask of all ones or all zeros. */
  function Masked(mask: U64, v: U64): U64 { if mask == ALL_ONES then v else 0 }

  /** A dword with bit `k` set. */
  function OrBit(dword: int, k: nat): int {
    if dword / Pow2(k) % 2 == 1 then dword else dword + Pow2(k)
  }

  /** The magnitude of a dword read as two's-complement, as an unsigned dword. */
  function AbsEpi32(dword: int): int { Abs(WrapI32(dword)) }

  function AbsEpi64(a: U64): U64 { Abs(WrapI64(a)) }

  lemma LaneOf(x: int)
    requires -0x8000_0000_0000_0000 <= x < 0x8000_0000_0000_0000
    ensures ToLane(x) == (if x < 0 then x + 0x1_0000_0000_0000_0000 else x) && WrapI64(ToLane(x)) == x
  {}
}
