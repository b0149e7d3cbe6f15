/** The unscaled int8 codec and vector creation of app/services/vectors.py:
    each component is rounded and clipped to the full int8 range
    [-128, 127] with no scaling, and unpacking reads the int8 values back. */
module Vectors {
  import opened Wrappers
  import opened Config
  import opened ServiceErrors
  import opened Quantize

  /** A stored vector row: its declared dimension and its packed bytes.
      The database id and timestamp are not modelled. */
  datatype StoredVector = StoredVector(dim: int, data: seq<byte>)

  /** `pack_int8(v)`: one byte per component; inside [-128, 127] each
      component is off by at most one half, beyond either end it
      saturates. */
  function PackInt8(v: seq<real>): (blob: seq<byte>)
    ensures |blob| == |v|
    ensures forall i :: 0 <= i < |v| && -128.0 <= v[i] <= 127.0 ==> Abs(FromByte(blob[i]) as real - v[i]) <= 0.5
    ensures forall i :: 0 <= i < |v| && v[i] >= 127.0 ==> FromByte(blob[i]) == 127
    ensures forall i :: 0 <= i < |v| && v[i] <= -128.0 ==> FromByte(blob[i]) == -128
  {
    seq(|v|, i requires 0 <= i < |v| => ToByte(QuantizeComponent(v[i], -128, 127)))
  }

  /** `unpack_int8(blob)`: the int8 read from each byte, as a float. Every
      component is a whole number in [-128, 127]. */
  function UnpackInt8(blob: seq<byte>): (v: seq<real>)
    ensures |v| == |blob|
    ensures forall i :: 0 <= i < |v| ==> IsIntegral(v[i]) && -128.0 <= v[i] <= 127.0
    ensures forall i :: 0 <= i < |v| ==> ToByte(v[i].Floor) == blob[i]
  {
    seq(|blob|, i requires 0 <= i < |blob| => FromByte(blob[i]) as real)
  }

  /** Whole-number components inside [-128, 127] survive packing and
      unpacking exactly. */
  lemma {:induction false} UnpackPackIntegral(v: seq<real>)
    requires forall i :: 0 <= i < |v| ==> IsIntegral(v[i]) && -128.0 <= v[i] <= 127.0
    ensures UnpackInt8(PackInt8(v)) == v
  {
    var w := UnpackInt8(PackInt8(v));
    forall i | 0 <= i < |v| ensures w[i] == v[i] {
      assert Abs(FromByte(PackInt8(v)[i]) as real - v[i]) <= 0.5;
    }
  }

  /** Every blob survives unpacking and packing again exactly. */
  lemma {:induction false} PackUnpackBlob(blob: seq<byte>)
    ensures PackInt8(UnpackInt8(blob)) == blob
  {
    var v := UnpackInt8(blob);
    var b := PackInt8(v);
    forall i | 0 <= i < |blob| ensures b[i] == blob[i] {
      ByteRoundTrip(blob[i]);
      assert QuantizeComponent(v[i], -128, 127) == FromByte(blob[i]);
    }
  }

  /** `create_vector_from_floats(v)`: rejects exactly the inputs whose length
      is not VECTOR_DIM; otherwise the row stores dimension VECTOR_DIM and
      one packed byte per component, so the size guard never fires. */
  function CreateVectorFromFloats(v: seq<real>): (r: Result<StoredVector, ServiceError>)
    ensures r.Failure? <==> |v| != VECTOR_DIM
    ensures r.Failure? ==> r.error == DimensionMismatch(|v|, VECTOR_DIM)
    ensures r.Success? ==> r.value.dim == VECTOR_DIM == |r.value.data|
    ensures r.Success? ==> r.value.data == PackInt8(v)
  {
    if |v| != VECTOR_DIM then Failure(DimensionMismatch(|v|, VECTOR_DIM))
    else
      var blob := PackInt8(v);
      var vec := StoredVector(|v|, blob);
      if |blob| != vec.dim then Failure(PackedSizeMismatch)
      else Success(vec)
  }
}
