/** Shared vocabulary: optional values, results, and Java's 32-bit `int`. */
module Base {

  /** A value that may be absent; stands for a Java reference that may be null. */
  datatype Option<+T> = None | Some(value: T) {

    /** The value, or `default` when absent. */
    function GetOr(default: T): T {
      match this
      case Some(v) => v
      case None => default
    }
  }

  /** The outcome of an operation that either yields a value or fails with an error. */
  datatype Result<+T, +E> = Ok(value: T) | Err(error: E)

  const MinInt32: int := -0x8000_0000
  const MaxInt32: int := 0x7fff_ffff

  /** Java's `int`. */
  type Int32 = x: int | MinInt32 <= x <= MaxInt32

  /** Java's `x + 1` on an `int`: the sum taken modulo 2^32, so the largest value wraps to the smallest. */
  function Increment(x: Int32): (r: Int32)
    ensures (r - x - 1) % 0x1_0000_0000 == 0
  {
    if x == MaxInt32 then MinInt32 else x + 1
  }

  /** Java's `Math.max`. */
  function Max(a: int, b: int): (r: int)
    ensures r >= a && r >= b
    ensures r == a || r == b
  {
    if a >= b then a else b
  }
}
