/** The inverse of the decoder: the EWKB bytes of a point in either byte
    order, and the upper-case hexadecimal text a spatial database prints for
    them. It is the reference against which the decoder's round trips are
    proved. */
module WkbEncoding {
  import opened Wrappers
  import JsText
  import opened WkbParser

  datatype ByteOrder = BigEndian | LittleEndian

  /** The first byte of the encoding: 1 for little-endian (NDR), 0 for
      big-endian (XDR). */
  function OrderByte(order: ByteOrder): Byte {
    if order.LittleEndian? then 1 else 0
  }

  /** The four bytes of a 32-bit value, most significant first. */
  function U32Bytes(v: nat): (r: seq<Byte>)
    requires v < 0x1_0000_0000
    ensures |r| == 4
  {
    var q1 := v / 0x100;
    var q2 := q1 / 0x100;
    var q3 := q2 / 0x100;
    [q3, q2 % 0x100, q1 % 0x100, v % 0x100]
  }

  /** A point with the given geometry type, SRID and coordinates. The SRID is
      written only when the type carries the SRID flag. */
  function EncodePoint(order: ByteOrder, geometryType: nat, srid: nat, lng: Float64, lat: Float64): (r: seq<Byte>)
    requires geometryType < 0x1_0000_0000 && srid < 0x1_0000_0000
    ensures |r| == CoordinateOffset(geometryType) + 16
  {
    var le := order.LittleEndian?;
    [OrderByte(order)] + Canonical(U32Bytes(geometryType), le)
    + (if HasSridFlag(geometryType) then Canonical(U32Bytes(srid), le) else [])
    + Canonical(lng.bits, le) + Canonical(lat.bits, le)
  }

  /** The upper-case hexadecimal digit of a nibble. */
  function HexChar(d: nat): (c: char)
    requires d < 16
    ensures JsText.IsHexDigit(c) && JsText.HexDigitValue(c) == d
    ensures c != '\\'
  {
    if d < 10 then ('0' as int + d) as char else ('A' as int + d - 10) as char
  }

  /** Two hexadecimal digits per byte, high nibble first. */
  function ToHex(bytes: seq<Byte>): (s: string)
    ensures |s| == 2 * |bytes|
  {
    seq(2 * |bytes|, i requires 0 <= i < 2 * |bytes| =>
      if i % 2 == 0 then HexChar(bytes[i / 2] / 16) else HexChar(bytes[i / 2] % 16))
  }

  lemma {:induction false} ReverseTwice(s: seq<Byte>)
    ensures Reverse(Reverse(s)) == s
  {
    assert forall i :: 0 <= i < |s| ==> Reverse(Reverse(s))[i] == s[i];
  }

  /** Putting bytes in canonical order twice gives them back. */
  lemma CanonicalTwice(s: seq<Byte>, littleEndian: bool)
    ensures Canonical(Canonical(s, littleEndian), littleEndian) == s
  {
    if littleEndian {
      ReverseTwice(s);
    }
  }

  /** Reading back the four bytes of a 32-bit value gives the value. */
  lemma U32RoundTrip(v: nat)
    requires v < 0x1_0000_0000
    ensures U32Of(U32Bytes(v)) == v
  {
    var q1 := v / 0x100;
    var q2 := q1 / 0x100;
    var q3 := q2 / 0x100;
    assert v == q1 * 0x100 + v % 0x100;
    assert q1 == q2 * 0x100 + q1 % 0x100;
    assert q2 == q3 * 0x100 + q2 % 0x100;
  }

  /** The fill loop recovers every byte of the text `ToHex` prints. */
  lemma HexRoundTrip(bytes: seq<Byte>)
    ensures HexToBytes(ToHex(bytes)) == Some(bytes)
  {
    var s := ToHex(bytes);
    forall k | 0 <= k < |bytes|
      ensures PairByte(s, k) == bytes[k]
    {
      var hi, lo := HexChar(bytes[k] / 16), HexChar(bytes[k] % 16);
      assert (2 * k) / 2 == k && (2 * k) % 2 == 0;
      assert (2 * k + 1) / 2 == k && (2 * k + 1) % 2 == 1;
      assert JsText.Substring(s, 2 * k, 2 * k + 2) == [hi, lo];
      JsText.HexPairValue(hi, lo);
    }
    assert HexToBytes(s).value == bytes;
  }

  /** Printing two byte lists one after the other prints their texts one
      after the other. */
  lemma ToHexConcat(a: seq<Byte>, b: seq<Byte>)
    ensures ToHex(a + b) == ToHex(a) + ToHex(b)
  {
    var n := 2 * |a|;
    forall i | 0 <= i < 2 * |a + b|
      ensures ToHex(a + b)[i] == (ToHex(a) + ToHex(b))[i]
    {
      if i >= n {
        assert (i - n) / 2 == i / 2 - |a| && (i - n) % 2 == i % 2;
        assert (a + b)[i / 2] == b[(i - n) / 2];
      }
    }
  }
}
