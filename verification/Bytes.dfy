/** Bytes, options and the fixed-width integers of the C sources. */
module Bytes {
  type byte = x: int | 0 <= x < 256

  datatype Option<+T> = None | Some(value: T)

  const CR: byte := 13
  const LF: byte := 10
  const CRLF: seq<byte> := [CR, LF]

  const INT_MAX: int := 0x7fff_ffff
  const TWO_32: int := 0x1_0000_0000
  const TWO_64: int := 0x1_0000_0000_0000_0000
  const ULLONG_MAX: int := TWO_64 - 1
  const LLONG_MAX: int := 0x7fff_ffff_ffff_ffff
  const LLONG_MIN: int := -0x8000_0000_0000_0000

  ghost predicate IsInt64(v: int) {
    LLONG_MIN <= v <= LLONG_MAX
  }

  /** Conversion to a 32-bit `int`, which wraps around. */
  function ToInt32(x: int): (r: int)
    ensures -INT_MAX - 1 <= r <= INT_MAX
    ensures -INT_MAX - 1 <= x <= INT_MAX ==> r == x
    ensures x > INT_MAX ==> r < x
  {
    var m := x % TWO_32;
    if m > INT_MAX then m - TWO_32 else m
  }

  /** Conversion to a 64-bit `unsigned long long`. */
  function ToUInt64(x: int): (r: int)
    ensures 0 <= r <= ULLONG_MAX
    ensures 0 <= x <= ULLONG_MAX ==> r == x
    ensures -TWO_64 <= x < 0 ==> r == x + TWO_64
  {
    x % TWO_64
  }

  /** Conversion to a 64-bit `long long`, two's complement. */
  function ToInt64(x: int): (r: int)
    ensures IsInt64(r)
    ensures IsInt64(x) ==> r == x
    ensures LLONG_MAX < x <= ULLONG_MAX ==> r == x - TWO_64
  {
    var m := x % TWO_64;
    if m > LLONG_MAX then m - TWO_64 else m
  }
}
