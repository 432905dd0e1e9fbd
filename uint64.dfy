/** Go's `uint64`: values below 2^64, and `+`, `-`, `*` that wrap around modulo 2^64. */
module Uint64 {

  import Arith

  const TWO_32: nat := 0x1_0000_0000
  const TWO_64: nat := 0x1_0000_0000_0000_0000

  const TWO_63: int := 0x8000_0000_0000_0000

  type u64 = x: nat | x < TWO_64

  /** Go's `int` on a 64-bit platform. */
  type i64 = x: int | -TWO_63 <= x < TWO_63

  /** Reduces an exact integer modulo 2^64: a wrapping operation, or the conversion `uint64(x)` of a
      64-bit `int` (Dafny's `%` is Euclidean, so a negative x lands where two's complement puts it). */
  function Wrap(x: int): (r: u64)
    ensures 0 <= x < TWO_64 ==> r == x
    ensures x < 0 && 0 <= x + TWO_64 ==> r == x + TWO_64
  {
    x % TWO_64
  }

  function Add(a: u64, b: u64): (r: u64)
    ensures a + b < TWO_64 ==> r == a + b
    ensures a + b >= TWO_64 ==> r == a + b - TWO_64
  {
    if a + b < TWO_64 then a + b else a + b - TWO_64
  }

  function Sub(a: u64, b: u64): (r: u64)
    ensures b <= a ==> r == a - b
    ensures a < b ==> r == a - b + TWO_64
  {
    if b <= a then a - b else a - b + TWO_64
  }

  function Mul(a: u64, b: u64): (r: u64)
    ensures a * b < TWO_64 ==> r == a * b
    ensures r <= a * b
  {
    Wrap(a * b)
  }

  /** Unsigned division; Go panics on a zero divisor. */
  function Div(a: u64, d: u64): (r: u64)
    requires d > 0
    ensures r <= a
  {
    Arith.DivLeSelf(a, d);
    a / d
  }
}
