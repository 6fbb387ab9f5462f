/** Shared vocabulary: an optional value and Go's 64-bit `int`. */
module Base {

  datatype Option<T> = None | Some(value: T)

  const MinInt64: int := -0x8000_0000_0000_0000
  const MaxInt64: int := 0x7FFF_FFFF_FFFF_FFFF
  const TwoTo64: int := 0x1_0000_0000_0000_0000

  predicate IsInt64(x: int) {
    MinInt64 <= x <= MaxInt64
  }

  /** The value Go's two's-complement `int` arithmetic leaves when the exact result is `x`. */
  function Wrap64(x: int): (r: int)
    ensures IsInt64(r)
    ensures (x - r) % TwoTo64 == 0
    ensures IsInt64(x) ==> r == x
  {
    (x - MinInt64) % TwoTo64 + MinInt64
  }
}
