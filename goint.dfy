/** Go's 64-bit `int`: the range it holds and the wrap-around of its arithmetic. */
module GoInt {
  const MinInt64: int := -0x8000_0000_0000_0000
  const MaxInt64: int := 0x7FFF_FFFF_FFFF_FFFF
  const Modulus: int := 0x1_0000_0000_0000_0000

  newtype int64 = x: int | -0x8000_0000_0000_0000 <= x < 0x8000_0000_0000_0000

  /** The int64 that Go's two's-complement arithmetic yields for the exact value x. */
  function Wrap(x: int): (r: int64)
    ensures MinInt64 <= x <= MaxInt64 ==> r as int == x
    ensures (x - r as int) % Modulus == 0
  {
    var w := (x - MinInt64) % Modulus + MinInt64;
    assert x - w == ((x - MinInt64) / Modulus) * Modulus;
    w as int64
  }
}
