/**
  Fixed-width machine integers of the ESP32 target, written out explicitly.
  Dafny integers are unbounded, so every wrap-around the firmware relies on
  is stated here once and used everywhere else.
 */
module FixedWidth {

  /** An octet on the wire or in memory (`uint8_t`). */
  type byte = x: int | 0 <= x < 0x100

  const U16_MODULUS: int := 0x1_0000
  const U32_MODULUS: int := 0x1_0000_0000

  /** `ULONG_MAX` on the ESP32, where `unsigned long` is 32 bits wide. */
  const ULONG_MAX: int := 0xFFFF_FFFF

  /** `uint16_t`. */
  type uint16 = x: int | 0 <= x < 0x1_0000

  /** `uint32_t`, and `unsigned long` on the ESP32. */
  type uint32 = x: int | 0 <= x < 0x1_0000_0000

  /** The `++` of a `uint16_t`: adds one and wraps 65535 around to 0. */
  function Inc16(x: uint16): (r: uint16)
    ensures x < U16_MODULUS - 1 ==> r == x + 1
    ensures x == U16_MODULUS - 1 ==> r == 0
  {
    (x + 1) % U16_MODULUS
  }

  /** The `++` of a `uint32_t` counter: adds one and wraps 2^32 - 1 around to 0. */
  function Inc32(x: uint32): (r: uint32)
    ensures x < U32_MODULUS - 1 ==> r == x + 1
    ensures x == U32_MODULUS - 1 ==> r == 0
  {
    (x + 1) % U32_MODULUS
  }

  /** Unsigned 32-bit subtraction `a - b` as C computes it (reduction modulo 2^32). */
  function Sub32(a: uint32, b: uint32): (r: uint32)
    ensures a >= b ==> r == a - b
    ensures a < b ==> r == a - b + U32_MODULUS
  {
    (a - b) % U32_MODULUS
  }
}
