/** The normalised int8 codec of app/services/users.py: the input is
    renormalised when its L2 norm is more than a tolerance away from 1, each
    component is scaled by 127, rounded and clipped to the symmetric range
    [-127, 127]; unpacking divides by 127. The norm is a parameter (numpy's
    `np.linalg.norm` is not modelled); lemmas below state what follows when
    it is the exact L2 norm. */
module UnitCodec {
  import opened Wrappers
  import opened ServiceErrors
  import opened Quantize

  /** Quantisation scale: 127, not 128, so the code is symmetric and -128
      is never produced. */
  const SCALE: int := 127

  /** Default `renorm_tolerance`. */
  const RENORM_TOLERANCE: real := 0.000001

  /** The components the quantiser sees: divided by the norm when the norm
      is more than `tol` away from 1, the inputs themselves otherwise. */
  function Renormalized(v: seq<real>, norm: real, tol: real): (w: seq<real>)
    requires norm > 0.0
    ensures |w| == |v|
    ensures Abs(norm - 1.0) > tol ==> forall i :: 0 <= i < |v| ==> w[i] * norm == v[i]
    ensures Abs(norm - 1.0) <= tol ==> w == v
  {
    if Abs(norm - 1.0) > tol then seq(|v|, i requires 0 <= i < |v| => v[i] / norm)
    else v
  }

  /** The int8 code `q` of a unit-range value `x`: within one half of
      `127 * x` inside [-1, 1], saturated to +-127 outside. */
  predicate QuantizedFrom(q: int, x: real) {
    && (-1.0 <= x <= 1.0 ==> Abs(q as real - 127.0 * x) <= 0.5)
    && (x >= 1.0 ==> q == SCALE)
    && (x <= -1.0 ==> q == -SCALE)
  }

  /** `_pack_int8_normalized(v)`: a zero norm is rejected; otherwise one
      byte per component, each decoding to a value in [-127, 127] that
      quantises the (possibly renormalised) component. */
  function PackInt8Normalized(v: seq<real>, norm: real, tol: real): (r: Result<seq<byte>, ServiceError>)
    requires norm >= 0.0
    ensures r.Failure? <==> norm == 0.0
    ensures r.Failure? ==> r.error == ZeroNorm
    ensures r.Success? ==> |r.value| == |v|
    ensures r.Success? ==> forall i :: 0 <= i < |v| ==> -SCALE <= FromByte(r.value[i]) <= SCALE
    ensures r.Success? ==> forall i :: 0 <= i < |v| ==> r.value[i] != 128
    ensures r.Success? ==>
              forall i :: 0 <= i < |v| ==> QuantizedFrom(FromByte(r.value[i]), Renormalized(v, norm, tol)[i])
  {
    if norm == 0.0 then Failure(ZeroNorm)
    else
      var w := Renormalized(v, norm, tol);
      Success(seq(|w|, i requires 0 <= i < |w| => ToByte(QuantizeComponent(127.0 * w[i], -SCALE, SCALE))))
  }

  /** `unpack_int8_to_unit_float(blob)`: each int8 divided by 127, so every
      value lies in [-128/127, 1]. */
  function UnpackInt8ToUnitFloat(blob: seq<byte>): (v: seq<real>)
    ensures |v| == |blob|
    ensures forall i :: 0 <= i < |v| ==> v[i] * 127.0 == FromByte(blob[i]) as real
    ensures forall i :: 0 <= i < |v| ==> -128.0 / 127.0 <= v[i] <= 1.0
  {
    seq(|blob|, i requires 0 <= i < |blob| => FromByte(blob[i]) as real / 127.0)
  }

  /** Decoding a packed vector: every value is in [-1, 1]; a component that
      was inside [-1, 1] comes back within 1/254 of itself, and one outside
      comes back as the nearer end. */
  lemma {:induction false} UnpackOfPacked(v: seq<real>, norm: real, tol: real)
    requires norm > 0.0
    ensures var u := UnpackInt8ToUnitFloat(PackInt8Normalized(v, norm, tol).value);
            var w := Renormalized(v, norm, tol);
            && |u| == |v|
            && (forall i :: 0 <= i < |u| ==> -1.0 <= u[i] <= 1.0)
            && (forall i :: 0 <= i < |u| && -1.0 <= w[i] <= 1.0 ==> Abs(u[i] - w[i]) <= 1.0 / 254.0)
            && (forall i :: 0 <= i < |u| && w[i] >= 1.0 ==> u[i] == 1.0)
            && (forall i :: 0 <= i < |u| && w[i] <= -1.0 ==> u[i] == -1.0)
  {
    var blob := PackInt8Normalized(v, norm, tol).value;
    var u := UnpackInt8ToUnitFloat(blob);
    var w := Renormalized(v, norm, tol);
    forall i | 0 <= i < |u|
      ensures -1.0 <= u[i] <= 1.0
      ensures -1.0 <= w[i] <= 1.0 ==> Abs(u[i] - w[i]) <= 1.0 / 254.0
    {
      var q := FromByte(blob[i]);
      assert u[i] * 127.0 == q as real;
      assert -127 <= q <= 127;
      if -1.0 <= w[i] <= 1.0 {
        assert Abs(q as real - 127.0 * w[i]) <= 0.5;
        assert u[i] - w[i] == (q as real - 127.0 * w[i]) / 127.0;
      }
    }
  }

  /** `a * a`. Kept behind a function so that facts about squares stay
      atoms for the solver. */
  function Square(a: real): real {
    a * a
  }

  /** `a * b`, for the same reason. */
  function Product(a: real, b: real): real {
    a * b
  }

  /** The sum of the squared components, the square of the exact L2 norm. */
  function SumSquares(v: seq<real>): (s: real)
    ensures s >= 0.0
  {
    if |v| == 0 then 0.0
    else
      SquareNonNegative(v[0]);
      Square(v[0]) + SumSquares(v[1..])
  }

  /** A product of two positive reals is positive. */
  lemma ProductPositive(a: real, b: real)
    requires a > 0.0 && b > 0.0
    ensures Product(a, b) > 0.0
  {
  }

  /** The square of a non-zero real is positive. */
  lemma SquarePositive(a: real)
    requires a != 0.0
    ensures Square(a) > 0.0
  {
    if a > 0.0 {
      ProductPositive(a, a);
    } else {
      ProductPositive(-a, -a);
      assert Product(-a, -a) == Square(a);
    }
  }

  /** A square is never negative. */
  lemma SquareNonNegative(a: real)
    ensures Square(a) >= 0.0
  {
    if a != 0.0 {
      SquarePositive(a);
    }
  }

  /** No square of a component exceeds the sum of squares. */
  lemma {:induction false} SquareAtMostSum(v: seq<real>, i: int)
    requires 0 <= i < |v|
    ensures Square(v[i]) <= SumSquares(v)
  {
    var t := v[1..];
    SquareNonNegative(v[0]);
    if i > 0 {
      SquareAtMostSum(t, i - 1);
      assert t[i - 1] == v[i];
    }
  }

  /** The all-zero vector has a zero sum of squares. */
  lemma {:induction false} ZeroVectorSum(v: seq<real>)
    requires forall i :: 0 <= i < |v| ==> v[i] == 0.0
    ensures SumSquares(v) == 0.0
  {
    if |v| > 0 {
      var t := v[1..];
      assert forall j :: 0 <= j < |t| ==> t[j] == v[j + 1];
      ZeroVectorSum(t);
      assert Square(v[0]) == 0.0;
    }
  }

  /** A vector with a non-zero component has a positive sum of squares. */
  lemma NonZeroVectorSum(v: seq<real>, i: int)
    requires 0 <= i < |v| && v[i] != 0.0
    ensures SumSquares(v) > 0.0
  {
    SquarePositive(v[i]);
    SquareAtMostSum(v, i);
  }

  /** The sum of squares is zero exactly for the all-zero vector. */
  lemma SumSquaresZero(v: seq<real>)
    ensures SumSquares(v) == 0.0 <==> forall i :: 0 <= i < |v| ==> v[i] == 0.0
  {
    if forall i :: 0 <= i < |v| ==> v[i] == 0.0 {
      ZeroVectorSum(v);
    } else {
      var i :| 0 <= i < |v| && v[i] != 0.0;
      NonZeroVectorSum(v, i);
    }
  }

  /** If `w * n == x` and `x * x <= n * n` with `n` positive, then `w` is
      at most 1. */
  lemma QuotientAtMostOne(x: real, n: real, w: real)
    requires n > 0.0 && Square(x) <= Square(n) && w * n == x
    ensures w <= 1.0
  {
    if w > 1.0 {
      ProductPositive(w - 1.0, n);
      assert Product(w - 1.0, n) == x - n;
      ProductPositive(x - n, x + n);
    }
  }

  /** If `w * n == x` and `x * x <= n * n` with `n` positive, then `w` lies
      in [-1, 1]. */
  lemma UnitQuotient(x: real, n: real, w: real)
    requires n > 0.0 && Square(x) <= Square(n) && w * n == x
    ensures -1.0 <= w <= 1.0
  {
    QuotientAtMostOne(x, n, w);
    assert Square(-x) == Square(x);
    QuotientAtMostOne(-x, n, -w);
  }

  /** With the exact L2 norm, packing rejects exactly the all-zero vector. */
  lemma PackRejectsExactlyZeroVectors(v: seq<real>, norm: real, tol: real)
    requires norm >= 0.0 && Square(norm) == SumSquares(v)
    ensures PackInt8Normalized(v, norm, tol).Failure? <==> forall i :: 0 <= i < |v| ==> v[i] == 0.0
  {
    SumSquaresZero(v);
    if norm != 0.0 {
      SquarePositive(norm);
    }
  }

  /** With the exact L2 norm, every renormalised component lies in [-1, 1]. */
  lemma RenormalizedInUnitRange(v: seq<real>, norm: real, tol: real, i: int)
    requires norm > 0.0 && Square(norm) == SumSquares(v)
    requires Abs(norm - 1.0) > tol
    requires 0 <= i < |v|
    ensures -1.0 <= Renormalized(v, norm, tol)[i] <= 1.0
  {
    SquareAtMostSum(v, i);
    UnitQuotient(v[i], norm, Renormalized(v, norm, tol)[i]);
  }

  /** With the exact L2 norm and the renormalising branch taken, every
      decoded value is within 1/254 of the unit vector's component. */
  lemma ExactNormRoundTrip(v: seq<real>, norm: real, tol: real)
    requires norm > 0.0 && Square(norm) == SumSquares(v)
    requires Abs(norm - 1.0) > tol
    ensures var u := UnpackInt8ToUnitFloat(PackInt8Normalized(v, norm, tol).value);
            forall i :: 0 <= i < |v| ==> Abs(u[i] - v[i] / norm) <= 1.0 / 254.0
  {
    UnpackOfPacked(v, norm, tol);
    var w := Renormalized(v, norm, tol);
    forall i | 0 <= i < |v| ensures -1.0 <= w[i] <= 1.0 && w[i] == v[i] / norm {
      RenormalizedInUnitRange(v, norm, tol, i);
    }
  }
}
