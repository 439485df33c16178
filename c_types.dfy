/**
 * Fixed-width C integer types and the small wrappers shared by every module of
 * the model.  The firmware runs on a 32-bit ESP32, so `int` and `long` are
 * 32 bits wide and `char` is an unsigned byte.
 */
module CTypes {

  datatype Option<+T> = None | Some(value: T)

  const TWO_32: int := 0x1_0000_0000
  const TWO_64: int := 0x1_0000_0000_0000_0000
  const LONG_MAX: int := 0x7FFF_FFFF
  const LONG_MIN: int := -0x8000_0000

  /** An 8-bit unsigned byte (`uint8_t`, and `char` on this target). */
  type byte = x: int | 0 <= x < 256
  /** `uint32_t`: arithmetic on it wraps modulo 2^32. */
  type u32 = x: int | 0 <= x < TWO_32
  /** `uint64_t`: arithmetic on it wraps modulo 2^64. */
  type u64 = x: int | 0 <= x < TWO_64

  /** Unsigned 32-bit subtraction, as `a - b` on two `uint32_t`. */
  function SubU32(a: u32, b: u32): (r: u32)
    ensures a >= b ==> r == a - b
    ensures a < b ==> r == a - b + TWO_32
  {
    (a - b) % TWO_32
  }

  /** Unsigned 32-bit increment, as `n++` on an `unsigned int`. */
  function IncU32(n: u32): (r: u32)
    ensures n < TWO_32 - 1 ==> r == n + 1
    ensures n == TWO_32 - 1 ==> r == 0
  {
    (n + 1) % TWO_32
  }

  /** Unsigned 64-bit subtraction. */
  function SubU64(a: u64, b: u64): (r: u64)
    ensures a >= b ==> r == a - b
    ensures a < b ==> r == a - b + TWO_64
  {
    (a - b) % TWO_64
  }

  /** Saturation of a mathematical value into a 32-bit `long`, as `strtol` does on overflow. */
  function ClampLong(v: int): (r: int)
    ensures LONG_MIN <= r <= LONG_MAX
    ensures LONG_MIN <= v <= LONG_MAX ==> r == v
    ensures v > LONG_MAX ==> r == LONG_MAX
    ensures v < LONG_MIN ==> r == LONG_MIN
  {
    if v > LONG_MAX then LONG_MAX else if v < LONG_MIN then LONG_MIN else v
  }

  /** A signed 32-bit result as the target's two's-complement arithmetic produces it. */
  function WrapI32(v: int): (r: int)
    ensures LONG_MIN <= r <= LONG_MAX
    ensures LONG_MIN <= v <= LONG_MAX ==> r == v
    ensures (v - r) % TWO_32 == 0
  {
    (v - LONG_MIN) % TWO_32 + LONG_MIN
  }

  function Min(a: int, b: int): int { if a < b then a else b }
  function Abs(a: int): int { if a < 0 then -a else a }
}
