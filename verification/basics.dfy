/** Small shared vocabulary: bytes, C's 32-bit `unsigned` conversion, and
    the success/failure wrappers used by the codec's error paths. */
module Basics {

  /** One unsigned byte, the C `unsigned char`. */
  type Byte = b: int | 0 <= b < 256

  /** 2^32: C's `unsigned` arithmetic and 32-bit `int` bit patterns wrap
      modulo this. The `%` and `/` below write it as a literal, because the
      solver treats division by a literal as linear and division by a named
      constant as nonlinear. */
  const TwoTo32: int := 0x1_0000_0000

  /** Conversion to C's 32-bit `unsigned`: the value modulo 2^32. Values
      already in range are kept, and a negative `int` gains 2^32. */
  function Unsigned(x: int): (u: int)
    ensures 0 <= u < TwoTo32
    ensures 0 <= x < TwoTo32 ==> u == x
    ensures -TwoTo32 <= x < 0 ==> u == x + TwoTo32
  {
    x % 0x1_0000_0000
  }

  /** Sums agree after conversion to `unsigned` when their terms do. */
  lemma UnsignedSum(a: int, b: int, c: int, d: int)
    requires Unsigned(a) == Unsigned(c) && Unsigned(b) == Unsigned(d)
    ensures Unsigned(a + b) == Unsigned(c + d)
  {
    var k := a / 0x1_0000_0000 + b / 0x1_0000_0000 - c / 0x1_0000_0000 - d / 0x1_0000_0000;
    assert a + b == c + d + 0x1_0000_0000 * k;
    UnsignedShift(c + d, k);
  }

  /** Adding a multiple of 2^32 does not change the `unsigned` value. */
  lemma UnsignedShift(x: int, k: int)
    ensures Unsigned(x + TwoTo32 * k) == Unsigned(x)
  {
    var q := x / 0x1_0000_0000;
    var m := x % 0x1_0000_0000;
    assert x + 0x1_0000_0000 * k == 0x1_0000_0000 * (q + k) + m;
  }

  datatype Option<+T> = None | Some(value: T)

  /** Either a value or the reason the operation gave up. */
  datatype Result<+T, +E> = Ok(value: T) | Err(error: E)
}
