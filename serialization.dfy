/**
 * Byte-level helpers the tuple codec relies on: the 4-byte big-endian length
 * field (`write<uint32_t>` and `read_simple<int32_t>`), the conversions between
 * 32-bit signed and unsigned integers, and unsigned byte-wise comparison.
 */
module Serialization {
  import opened Wrappers

  type byte = x: int | 0 <= x < 256
  type Bytes = seq<byte>

  const INT32_MIN: int := -0x8000_0000
  const INT32_MAX: int := 0x7FFF_FFFF
  const UINT32_LIMIT: int := 0x1_0000_0000

  /** Values representable as `int32_t`. */
  predicate IsInt32(x: int) {
    INT32_MIN <= x <= INT32_MAX
  }

  /** `static_cast<uint32_t>` of an `int32_t`: two's complement. */
  function ToUint32(x: int): (u: nat)
    requires IsInt32(x)
    ensures u < UINT32_LIMIT
    ensures x >= 0 ==> u == x
    ensures x < 0 ==> u > INT32_MAX
  {
    if x < 0 then x + UINT32_LIMIT else x
  }

  /** Reinterpreting four bytes read as unsigned as an `int32_t`. */
  function ToInt32(u: nat): (x: int)
    requires u < UINT32_LIMIT
    ensures IsInt32(x)
    ensures ToUint32(x) == u
  {
    if u <= INT32_MAX then u else u - UINT32_LIMIT
  }

  /** 256 to the power `k`: the number of values `k` bytes can hold. */
  function Pow256(k: nat): (p: nat)
    ensures p > 0
  {
    if k == 0 then 1 else 256 * Pow256(k - 1)
  }

  /** The low `k` bytes of `u`, most significant first. */
  function BigEndian(u: nat, k: nat): (b: Bytes)
    ensures |b| == k
  {
    if k == 0 then [] else BigEndian(u / 256, k - 1) + [u % 256]
  }

  /** The unsigned value of a byte string, most significant byte first. */
  function FromBigEndian(b: Bytes): (u: nat)
    ensures u < Pow256(|b|)
  {
    if b == [] then 0 else FromBigEndian(b[..|b| - 1]) * 256 + b[|b| - 1]
  }

  /** Decoding the `k` big-endian bytes of a value that fits in them gives the value back. */
  lemma {:induction false} BigEndianRoundTrip(u: nat, k: nat)
    requires u < Pow256(k)
    ensures FromBigEndian(BigEndian(u, k)) == u
  {
    if k > 0 {
      var b := BigEndian(u, k);
      BigEndianRoundTrip(u / 256, k - 1);
      assert b[..k - 1] == BigEndian(u / 256, k - 1);
      assert b[k - 1] == u % 256;
    }
  }

  /** `write<uint32_t>`: the four bytes of `u`, most significant first. */
  function BigEndian4(u: nat): (b: Bytes)
    requires u < UINT32_LIMIT
    ensures |b| == 4
  {
    BigEndian(u, 4)
  }

  /** The unsigned value of four bytes, most significant first. */
  function FromBigEndian4(b: Bytes): (u: nat)
    requires |b| == 4
    ensures u < UINT32_LIMIT
  {
    assert Pow256(4) == UINT32_LIMIT;
    FromBigEndian(b)
  }

  lemma BigEndian4RoundTrip(u: nat)
    requires u < UINT32_LIMIT
    ensures FromBigEndian4(BigEndian4(u)) == u
  {
    assert Pow256(4) == UINT32_LIMIT;
    BigEndianRoundTrip(u, 4);
  }

  /** The bytes `write<uint32_t>(out, uint32_t(len))` appends for a length field. */
  function LengthField(len: int): (b: Bytes)
    requires IsInt32(len)
    ensures |b| == 4
  {
    BigEndian4(ToUint32(len))
  }

  /**
   * `read_simple<int32_t>(v)`: the signed big-endian length at the front of `v`
   * and the view after it, or None when fewer than four bytes remain (the
   * helper throws `marshal_exception` then).
   */
  function ReadInt32(v: Bytes): (r: Option<(int, Bytes)>)
    ensures r.Some? <==> |v| >= 4
  {
    if |v| < 4 then None else Some((ToInt32(FromBigEndian4(v[..4])), v[4..]))
  }

  /** Reading a length field gives back the length written, and leaves what followed. */
  lemma ReadLengthField(len: int, rest: Bytes)
    requires IsInt32(len)
    ensures ReadInt32(LengthField(len) + rest) == Some((len, rest))
  {
    var b := LengthField(len) + rest;
    assert b[..4] == LengthField(len);
    assert b[4..] == rest;
    BigEndian4RoundTrip(ToUint32(len));
  }

  /**
   * `compare_unsigned`: lexicographic order on unsigned bytes, a proper prefix
   * first. Only the sign of the result is modelled.
   */
  function CompareUnsigned(a: Bytes, b: Bytes): (r: int)
    ensures -1 <= r <= 1
    ensures r == 0 <==> a == b
  {
    if a == [] then (if b == [] then 0 else -1)
    else if b == [] then 1
    else if a[0] < b[0] then -1
    else if a[0] > b[0] then 1
    else
      var r := CompareUnsigned(a[1..], b[1..]);
      assert a == [a[0]] + a[1..] && b == [b[0]] + b[1..];
      r
  }

  lemma {:induction false} CompareUnsignedAntisymmetric(a: Bytes, b: Bytes)
    ensures CompareUnsigned(b, a) == -CompareUnsigned(a, b)
  {
    if a != [] && b != [] && a[0] == b[0] {
      CompareUnsignedAntisymmetric(a[1..], b[1..]);
    }
  }
}
