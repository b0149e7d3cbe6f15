/** The numpy primitives both int8 codecs are built from: the int8 and byte
    domains, the two's-complement byte layout of `tobytes()`/`frombuffer`,
    `np.round` and `np.clip`. Components are exact reals; float32 rounding
    of the inputs and of the products is not modelled. */
module Quantize {

  /** numpy `int8`. */
  type int8 = x: int | -128 <= x < 128

  /** One byte of a packed blob. */
  type byte = x: int | 0 <= x < 256

  /** The byte `ndarray.tobytes()` writes for one int8 (two's complement). */
  function ToByte(q: int8): (b: byte)
    ensures FromByte(b) == q
    ensures (b >= 128) == (q < 0)
  {
    if q < 0 then q + 256 else q
  }

  /** The int8 `np.frombuffer(blob, dtype=np.int8)` reads from one byte. */
  function FromByte(b: byte): (q: int8)
    ensures (q < 0) == (b >= 128)
  {
    if b >= 128 then b - 256 else b
  }

  /** Every byte is the image of the int8 read from it. */
  lemma ByteRoundTrip(b: byte)
    ensures ToByte(FromByte(b)) == b
  {
  }

  function Abs(x: real): (r: real)
    ensures r >= 0.0 && (r == x || r == -x)
  {
    if x < 0.0 then -x else x
  }

  predicate IsIntegral(x: real) {
    x == x.Floor as real
  }

  /** `np.round`: round half to even. The result is within one half of `x`,
      integers are fixed points, and exact halves go to the even neighbour. */
  function Round(x: real): (r: int)
    ensures x - 0.5 <= r as real <= x + 0.5
    ensures IsIntegral(x) ==> r as real == x
    ensures x - x.Floor as real == 0.5 ==> r % 2 == 0
  {
    var f := x.Floor;
    var d := x - f as real;
    if d < 0.5 then f
    else if d > 0.5 then f + 1
    else if f % 2 == 0 then f
    else f + 1
  }

  /** `np.clip(n, lo, hi)`. */
  function Clamp(n: int, lo: int, hi: int): (r: int)
    requires lo <= hi
    ensures lo <= r <= hi
    ensures lo <= n <= hi ==> r == n
    ensures n < lo ==> r == lo
    ensures n > hi ==> r == hi
  {
    if n < lo then lo else if n > hi then hi else n
  }

  /** `np.clip(np.round(x), lo, hi)` for one component: inside the range
      the result is within one half of `x`, and at or beyond either end it
      saturates to that end. */
  function QuantizeComponent(x: real, lo: int, hi: int): (q: int)
    requires lo <= hi
    ensures lo <= q <= hi
    ensures lo as real <= x <= hi as real ==> Abs(q as real - x) <= 0.5
    ensures x >= hi as real ==> q == hi
    ensures x <= lo as real ==> q == lo
    ensures IsIntegral(x) && lo as real <= x <= hi as real ==> q as real == x
  {
    Clamp(Round(x), lo, hi)
  }
}
