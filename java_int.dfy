/** Java's 32-bit `int` / `Integer` arithmetic, written out over unbounded integers. */
module JavaInt {

  const MinInt32: int := -0x8000_0000
  const MaxInt32: int := 0x7fff_ffff

  /** The values of a Java `int` (and of a non-null `Integer`). */
  type Int32 = x: int | -0x8000_0000 <= x < 0x8000_0000

  /** The two's-complement wrap-around that Java applies to every `int` result. */
  function Wrap32(x: int): (r: Int32)
    ensures MinInt32 <= x <= MaxInt32 ==> r == x
    ensures (x - r) % 0x1_0000_0000 == 0
  {
    (x + 0x8000_0000) % 0x1_0000_0000 - 0x8000_0000
  }

  /** `Integer.compare(a, b)`: the sign of a - b, computed without overflow. */
  function Compare(a: Int32, b: Int32): (r: int)
    ensures r < 0 <==> a < b
    ensures r == 0 <==> a == b
    ensures r > 0 <==> a > b
  {
    if a < b then -1 else if a == b then 0 else 1
  }
}
