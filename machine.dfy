/**
 * Fixed-width machine integers as the C++ sources use them: `int64_t`
 * (vertex ids, mate arrays, operator values) and `int16_t` (the `prob`
 * field of VertexType), with explicit two's-complement wrap-around.
 */
module Machine {

  const Int64Min: int := -0x8000_0000_0000_0000
  const Int64Max: int := 0x7fff_ffff_ffff_ffff
  const TwoTo64: int := 0x1_0000_0000_0000_0000

  type Int64 = x: int | Int64Min <= x <= Int64Max
  type Int16 = x: int | -0x8000 <= x <= 0x7fff

  /** Reduce an integer modulo 2^64 into the int64_t range (two's-complement wrap). */
  function Wrap(x: int): (r: Int64)
    ensures (r - x) % TwoTo64 == 0
    ensures Int64Min <= x <= Int64Max ==> r == x
  {
    var m := (x - Int64Min) % TwoTo64;
    m + Int64Min
  }
}
