/** What the EWKB point decoder guarantees, stated over the decoding
    function that `ParsePostGISPoint` is proved to compute. */
module WkbProperties {
  import opened Wrappers
  import JsText
  import opened WkbParser
  import opened WkbEncoding

  /** Byte 0 read as the byte-order flag. */
  predicate IsLittleEndian(buf: seq<Byte>)
    requires |buf| >= 1
  {
    buf[0] == 1
  }

  /** Bytes 1 to 4 read as the geometry type. */
  function GeometryType(buf: seq<Byte>): nat
    requires |buf| >= 5
  {
    U32Of(Canonical(buf[1..5], IsLittleEndian(buf)))
  }

  function Offset(buf: seq<Byte>): nat
    requires |buf| >= 5
  {
    CoordinateOffset(GeometryType(buf))
  }

  function LngField(buf: seq<Byte>): Float64
    requires |buf| >= 5 && |buf| >= Offset(buf) + 16
  {
    Float64(Canonical(buf[Offset(buf)..Offset(buf) + 8], IsLittleEndian(buf)))
  }

  function LatField(buf: seq<Byte>): Float64
    requires |buf| >= 5 && |buf| >= Offset(buf) + 16
  {
    Float64(Canonical(buf[Offset(buf) + 8..Offset(buf) + 16], IsLittleEndian(buf)))
  }

  // ----- Arguments and text ---------------------------------------------------

  /** `null`, `undefined`, the empty string and every non-string give `null`. */
  lemma FalsyOrNonStringIsNull(hex: JsValue)
    requires !hex.JsString? || hex.text == ""
    ensures Decode(hex) == None
  {
  }

  /** A leading literal backslash-x is ignored (when the rest does not start
      with a second one, which would then be read as text). */
  lemma {:induction false} EscapePrefixIgnored(s: string)
    requires !JsText.StartsWith(s, "\\x")
    ensures Decode(JsString("\\x" + s)) == Decode(JsString(s))
  {
    var t := "\\x" + s;
    assert JsText.StartsWith(t, "\\x") by { assert t[..2] == "\\x"; }
    assert StripEscapePrefix(t) == s by { assert t[2..] == s; }
    if s == "" {
      var empty := HexToBytes("").value;
      assert |empty| == 0;
      assert DecodeBuffer(empty) == None;
      assert Decode(JsString(t)) == None;
    }
  }

  /** Only one prefix is removed, and only at the start. */
  lemma {:induction false} EscapePrefixOnce(s: string)
    ensures StripEscapePrefix("\\x\\x" + s) == "\\x" + s
    ensures !JsText.StartsWith(s, "\\x") ==> StripEscapePrefix(s) == s
  {
    var t := "\\x\\x" + s;
    assert t[..2] == "\\x";
    assert t[2..] == "\\x" + s;
  }

  /** Text of odd length always gives `null`: the last store lands past the end
      of the buffer. */
  lemma {:induction false} OddLengthIsNull(s: string)
    requires |s| % 2 == 1
    ensures Decode(JsString(s)) == None
  {
    assert s != "";
    var clean := StripEscapePrefix(s);
    assert |clean| % 2 == 1;
  }

  /** Buffer byte `k` is the value of characters `2k` and `2k+1` when both are
      hexadecimal digits. */
  lemma {:induction false} HexPairByte(s: string, k: nat)
    requires 2 * k + 1 < |s|
    requires JsText.IsHexDigit(s[2 * k]) && JsText.IsHexDigit(s[2 * k + 1])
    ensures PairByte(s, k) == 16 * JsText.HexDigitValue(s[2 * k]) + JsText.HexDigitValue(s[2 * k + 1])
  {
    assert JsText.Substring(s, 2 * k, 2 * k + 2) == [s[2 * k], s[2 * k + 1]];
    JsText.HexPairValue(s[2 * k], s[2 * k + 1]);
  }

  /** Buffer byte `k` is 0 when neither character `2k` nor `2k+1` is a
      hexadecimal digit: `parseInt` gives `NaN` and the store makes it 0. */
  lemma {:induction false} NonHexPairByte(s: string, k: nat)
    requires 2 * k + 1 < |s|
    requires !JsText.IsHexDigit(s[2 * k]) && !JsText.IsHexDigit(s[2 * k + 1])
    ensures PairByte(s, k) == 0
  {
    var pair := JsText.Substring(s, 2 * k, 2 * k + 2);
    assert pair == [s[2 * k], s[2 * k + 1]];
    assert forall i :: 0 <= i < |pair| ==> !JsText.IsHexDigit(pair[i]);
    JsText.ParseIntHexNoDigit(pair);
  }

  /** Text of even length without any hexadecimal digit fills a buffer of
      zeros. */
  lemma {:induction false} NonHexFillsZeros(s: string)
    requires |s| % 2 == 0
    requires forall i :: 0 <= i < |s| ==> !JsText.IsHexDigit(s[i])
    ensures HexToBytes(s) == Some(seq(|s| / 2, _ => 0))
  {
    forall k | 0 <= k < |s| / 2
      ensures PairByte(s, k) == 0
    {
      NonHexPairByte(s, k);
    }
    assert HexToBytes(s).value == seq(|s| / 2, _ => 0);
  }

  /** At least 21 zero bytes read as big-endian type 0, so offset 5, and a
      point at +0.0, +0.0, which passes the range check. */
  lemma {:induction false} ZeroBufferIsOrigin(n: nat)
    requires n >= OFFSET_PLAIN + 16
    ensures DecodeBuffer(seq(n, _ => 0))
         == Some(LatLng(Float64([0, 0, 0, 0, 0, 0, 0, 0]), Float64([0, 0, 0, 0, 0, 0, 0, 0])))
  {
    var zeros: seq<Byte> := seq(n, _ => 0);
    var zero := Float64([0, 0, 0, 0, 0, 0, 0, 0]);
    assert zeros[1..5] == [0, 0, 0, 0];
    assert U32At(zeros, 1, false) == Some(0);
    assert zeros[5..13] == zero.bits && F64At(zeros, 5, false) == Some(zero);
    assert zeros[13..21] == zero.bits && F64At(zeros, 13, false) == Some(zero);
    assert InRange(zero, zero);
  }

  /** Non-hexadecimal text is not rejected as such: text of even length, at
      least 42 characters, with no hexadecimal digit and no leading
      backslash-x, fills a zero buffer and decodes to latitude and longitude
      +0.0, a point inside the range. */
  lemma {:induction false} NonHexTextDecodesToOrigin(s: string)
    requires |s| % 2 == 0 && |s| >= 42
    requires forall i :: 0 <= i < |s| ==> !JsText.IsHexDigit(s[i])
    requires !JsText.StartsWith(s, "\\x")
    ensures Decode(JsString(s))
         == Some(LatLng(Float64([0, 0, 0, 0, 0, 0, 0, 0]), Float64([0, 0, 0, 0, 0, 0, 0, 0])))
  {
    assert StripEscapePrefix(s) == s;
    NonHexFillsZeros(s);
    ZeroBufferIsOrigin(|s| / 2);
  }

  /** The prefix does not count towards the length: a backslash-x followed
      by any 40 characters fills only 20 bytes and gives `null`. */
  lemma EscapedShortTextIsNull(s: string)
    requires |s| == 40
    ensures Decode(JsString("\\x" + s)) == None
  {
    var t := "\\x" + s;
    assert t[..2] == "\\x" && t[2..] == s;
    assert JsText.StartsWith(t, "\\x");
    assert StripEscapePrefix(t) == s;
  }

  // ----- Header --------------------------------------------------------------

  /** Byte 0 selects little-endian only when it is 1; every other value reads
      like 0, big-endian. */
  lemma {:induction false} OtherOrderBytesAreBigEndian(buf: seq<Byte>, x: Byte)
    requires |buf| >= 1 && x != 1
    ensures DecodeBuffer(buf[0 := x]) == DecodeBuffer(buf[0 := 0])
  {
    var a, b := buf[0 := x], buf[0 := 0];
    assert forall i, j :: 1 <= i <= j <= |buf| ==> a[i..j] == b[i..j];
  }

  /** The SRID flag is bit 5 of the type's most significant byte. */
  lemma {:induction false} SridFlagBit(c: seq<Byte>)
    requires |c| == 4
    ensures HasSridFlag(U32Of(c)) <==> (c[0] / 32) % 2 == 1
  {
    var rest := c[1] as int * 0x1_0000 + c[2] as int * 0x100 + c[3] as int;
    assert 0 <= rest < 0x100_0000;
    var q, low := c[0] / 32, c[0] % 32;
    assert U32Of(c) == q * SRID_FLAG + (low * 0x100_0000 + rest);
    assert 0 <= low * 0x100_0000 + rest < SRID_FLAG;
    assert U32Of(c) / SRID_FLAG == q;
  }

  /** So in the buffer the flag is bit 5 of byte 4 (little-endian) or of byte 1
      (big-endian). */
  lemma {:induction false} SridFlagLocation(buf: seq<Byte>)
    requires |buf| >= 5
    ensures HasSridFlag(GeometryType(buf)) <==> (buf[if IsLittleEndian(buf) then 4 else 1] / 32) % 2 == 1
  {
    SridFlagBit(Canonical(buf[1..5], IsLittleEndian(buf)));
  }

  /** The SRID bytes are never read. */
  lemma {:induction false} SridBytesIgnored(buf: seq<Byte>, srid: seq<Byte>)
    requires |buf| >= OFFSET_WITH_SRID && |srid| == 4
    requires HasSridFlag(GeometryType(buf))
    ensures DecodeBuffer(buf[..5] + srid + buf[9..]) == DecodeBuffer(buf)
  {
    var a := buf[..5] + srid + buf[9..];
    assert |a| == |buf| && a[0] == buf[0] && a[1..5] == buf[1..5];
    if 25 <= |buf| {
      assert a[9..17] == buf[9..17];
      assert a[17..25] == buf[17..25];
    } else if 17 <= |buf| {
      assert a[9..17] == buf[9..17];
    }
  }

  /** No bit of the geometry type but the SRID flag affects the result: the
      geometry kind is never checked. */
  lemma {:induction false} OnlySridFlagOfTypeMatters(buf: seq<Byte>, t: seq<Byte>)
    requires |buf| >= 5 && |t| == 4
    requires HasSridFlag(U32Of(Canonical(t, IsLittleEndian(buf)))) == HasSridFlag(GeometryType(buf))
    ensures DecodeBuffer(buf[..1] + t + buf[5..]) == DecodeBuffer(buf)
  {
    var a := buf[..1] + t + buf[5..];
    var le := IsLittleEndian(buf);
    assert |a| == |buf| && a[0] == buf[0] && a[1..5] == t;
    var off := Offset(buf);
    assert CoordinateOffset(U32Of(Canonical(t, le))) == off;
    if off + 8 <= |buf| {
      assert a[off..off + 8] == buf[off..off + 8];
    }
    if off + 16 <= |buf| {
      assert a[off + 8..off + 16] == buf[off + 8..off + 16];
    }
  }

  // ----- Length and coordinates --------------------------------------------------

  /** Fewer than offset + 16 bytes give `null`: 21 without an SRID, 25 with one. */
  lemma ShortBufferIsNull(buf: seq<Byte>)
    ensures |buf| < OFFSET_PLAIN + 16 ==> DecodeBuffer(buf) == None
    ensures |buf| >= 5 && HasSridFlag(GeometryType(buf)) && |buf| < OFFSET_WITH_SRID + 16
            ==> DecodeBuffer(buf) == None
  {
  }

  /** A buffer long enough for its offset decodes to longitude at the offset and
      latitude eight bytes later, exactly when the pair passes the range check
      (both bounds inclusive). */
  lemma DecodedCoordinates(buf: seq<Byte>)
    requires |buf| >= 5 && |buf| >= Offset(buf) + 16
    ensures DecodeBuffer(buf).Some? <==> InRange(LatField(buf), LngField(buf))
    ensures DecodeBuffer(buf).Some? ==> DecodeBuffer(buf).value == LatLng(LatField(buf), LngField(buf))
  {
  }

  /** A successful result always passes the range check. */
  lemma SuccessIsInRange(buf: seq<Byte>)
    requires DecodeBuffer(buf).Some?
    ensures |buf| >= 5 && |buf| >= Offset(buf) + 16
    ensures InRange(DecodeBuffer(buf).value.lat, DecodeBuffer(buf).value.lng)
  {
  }

  /** Bytes after offset + 16 never change the result. */
  lemma {:induction false} TrailingBytesIgnored(buf: seq<Byte>, extra: seq<Byte>)
    requires |buf| >= 5 && |buf| >= Offset(buf) + 16
    ensures DecodeBuffer(buf + extra) == DecodeBuffer(buf)
  {
    var a := buf + extra;
    var le := IsLittleEndian(buf);
    var off := Offset(buf);
    assert a[0] == buf[0];
    assert a[1..5] == buf[1..5];
    assert U32At(a, 1, le) == U32At(buf, 1, le);
    assert a[off..off + 8] == buf[off..off + 8];
    assert a[off + 8..off + 16] == buf[off + 8..off + 16];
    assert F64At(a, off, le) == F64At(buf, off, le);
    assert F64At(a, off + 8, le) == F64At(buf, off + 8, le);
  }

  // ----- Round trips -------------------------------------------------------------

  /** The three parts of a concatenation are where they were put. */
  lemma {:induction false} SliceOfConcat(a: seq<Byte>, b: seq<Byte>, c: seq<Byte>)
    ensures (a + b + c)[..|a|] == a
    ensures (a + b + c)[|a|..|a| + |b|] == b
    ensures (a + b + c)[|a| + |b|..|a| + |b| + |c|] == c
  {
    var s := a + b + c;
    assert forall i :: 0 <= i < |a| ==> s[i] == a[i];
    assert forall i :: 0 <= i < |b| ==> s[|a| + i] == b[i];
    assert forall i :: 0 <= i < |c| ==> s[|a| + |b| + i] == c[i];
  }

  /** The header of an encoded point reads back as its byte order and type. */
  lemma {:induction false} EncodedHeader(order: ByteOrder, geometryType: nat, srid: nat, lng: Float64, lat: Float64)
    requires geometryType < 0x1_0000_0000 && srid < 0x1_0000_0000
    ensures var buf := EncodePoint(order, geometryType, srid, lng, lat);
            |buf| >= 5 && IsLittleEndian(buf) == order.LittleEndian? && GeometryType(buf) == geometryType
  {
    var le := order.LittleEndian?;
    var buf := EncodePoint(order, geometryType, srid, lng, lat);
    var typePart := Canonical(U32Bytes(geometryType), le);
    var tail := buf[5..];
    assert buf == [OrderByte(order)] + typePart + tail;
    SliceOfConcat([OrderByte(order)], typePart, tail);
    assert buf[1..5] == typePart;
    CanonicalTwice(U32Bytes(geometryType), le);
    U32RoundTrip(geometryType);
  }

  /** The coordinate fields of an encoded point read back as its coordinates. */
  lemma {:induction false} EncodedFields(order: ByteOrder, geometryType: nat, srid: nat, lng: Float64, lat: Float64)
    requires geometryType < 0x1_0000_0000 && srid < 0x1_0000_0000
    ensures var buf := EncodePoint(order, geometryType, srid, lng, lat);
            |buf| >= 5 && Offset(buf) == CoordinateOffset(geometryType) && |buf| == Offset(buf) + 16
            && LngField(buf) == lng && LatField(buf) == lat
  {
    var le := order.LittleEndian?;
    var buf := EncodePoint(order, geometryType, srid, lng, lat);
    EncodedHeader(order, geometryType, srid, lng, lat);
    var off := CoordinateOffset(geometryType);
    var lngPart, latPart := Canonical(lng.bits, le), Canonical(lat.bits, le);
    var front := buf[..off];
    assert buf == front + lngPart + latPart;
    SliceOfConcat(front, lngPart, latPart);
    CanonicalTwice(lng.bits, le);
    CanonicalTwice(lat.bits, le);
  }

  /** Decoding an encoded point gives the point back, or `null` when it is out
      of range, in either byte order, whatever the type's other bits and the
      SRID are. */
  lemma {:induction false} EncodeDecode(order: ByteOrder, geometryType: nat, srid: nat, lng: Float64, lat: Float64)
    requires geometryType < 0x1_0000_0000 && srid < 0x1_0000_0000
    ensures DecodeBuffer(EncodePoint(order, geometryType, srid, lng, lat))
         == if InRange(lat, lng) then Some(LatLng(lat, lng)) else None
  {
    EncodedFields(order, geometryType, srid, lng, lat);
    DecodedCoordinates(EncodePoint(order, geometryType, srid, lng, lat));
  }

  /** The big-endian encoding of a point decodes exactly like the
      little-endian one. */
  lemma BigEndianMatchesLittleEndian(geometryType: nat, srid: nat, lng: Float64, lat: Float64)
    requires geometryType < 0x1_0000_0000 && srid < 0x1_0000_0000
    ensures DecodeBuffer(EncodePoint(BigEndian, geometryType, srid, lng, lat))
         == DecodeBuffer(EncodePoint(LittleEndian, geometryType, srid, lng, lat))
  {
    EncodeDecode(BigEndian, geometryType, srid, lng, lat);
    EncodeDecode(LittleEndian, geometryType, srid, lng, lat);
  }

  /** The whole decoder on the hexadecimal text of an encoded point, with and
      without the backslash-x prefix. */
  lemma {:induction false} TextRoundTrip(order: ByteOrder, geometryType: nat, srid: nat, lng: Float64, lat: Float64)
    requires geometryType < 0x1_0000_0000 && srid < 0x1_0000_0000
    ensures Decode(JsString(ToHex(EncodePoint(order, geometryType, srid, lng, lat))))
         == if InRange(lat, lng) then Some(LatLng(lat, lng)) else None
    ensures Decode(JsString("\\x" + ToHex(EncodePoint(order, geometryType, srid, lng, lat))))
         == if InRange(lat, lng) then Some(LatLng(lat, lng)) else None
  {
    var bytes := EncodePoint(order, geometryType, srid, lng, lat);
    var s := ToHex(bytes);
    assert s[0] != '\\';
    assert StripEscapePrefix(s) == s;
    assert !JsText.StartsWith(s, "\\x");
    HexRoundTrip(bytes);
    EncodeDecode(order, geometryType, srid, lng, lat);
    EscapePrefixIgnored(s);
  }

  // ----- Fixtures ------------------------------------------------------------------

  /** A point in Jakarta (latitude -6.2088, longitude 106.8456) with SRID 4326
      decodes to itself. */
  lemma JakartaPointDecodes()
    ensures var lat, lng := Float64([0xC0, 0x18, 0xD5, 0xCF, 0xAA, 0xCD, 0x9E, 0x84]),
                            Float64([0x40, 0x5A, 0xB6, 0x1E, 0x4F, 0x76, 0x5F, 0xD9]);
            Decode(JsString(ToHex(EncodePoint(LittleEndian, 0x2000_0001, 4326, lng, lat)))) == Some(LatLng(lat, lng))
  {
    var lat, lng := Float64([0xC0, 0x18, 0xD5, 0xCF, 0xAA, 0xCD, 0x9E, 0x84]),
                    Float64([0x40, 0x5A, 0xB6, 0x1E, 0x4F, 0x76, 0x5F, 0xD9]);
    assert InRange(lat, lng);
    TextRoundTrip(LittleEndian, 0x2000_0001, 4326, lng, lat);
  }

  /** Latitude 200.0 parses without error but gives `null`. */
  lemma LatitudeOutOfRangeIsNull()
    ensures var lat, lng := Float64([0x40, 0x69, 0, 0, 0, 0, 0, 0]),
                            Float64([0x40, 0x5A, 0xB6, 0x1E, 0x4F, 0x76, 0x5F, 0xD9]);
            Decode(JsString(ToHex(EncodePoint(LittleEndian, 0x2000_0001, 4326, lng, lat)))) == None
  {
    var lat, lng := Float64([0x40, 0x69, 0, 0, 0, 0, 0, 0]),
                    Float64([0x40, 0x5A, 0xB6, 0x1E, 0x4F, 0x76, 0x5F, 0xD9]);
    assert !InRange(lat, lng);
    TextRoundTrip(LittleEndian, 0x2000_0001, 4326, lng, lat);
  }

  /** The encoder's output for the little-endian SRID point, piece by piece. */
  lemma EncodedSridPointLittleEndian(geometryType: nat, srid: nat, lng: Float64, lat: Float64)
    requires geometryType < 0x1_0000_0000 && srid < 0x1_0000_0000 && HasSridFlag(geometryType)
    ensures EncodePoint(LittleEndian, geometryType, srid, lng, lat)
         == [1] + Canonical(U32Bytes(geometryType), true) + Canonical(U32Bytes(srid), true)
            + Canonical(lng.bits, true) + Canonical(lat.bits, true)
  {
  }

  /** The little-endian bytes of the sample's type `0x20000001` and SRID 4326. */
  lemma SampleHeaderBytes()
    ensures Canonical(U32Bytes(0x2000_0001), true) == [1, 0, 0, 0x20]
    ensures Canonical(U32Bytes(4326), true) == [0xE6, 0x10, 0, 0]
  {
    assert U32Bytes(0x2000_0001) == [0x20, 0, 0, 1];
    assert U32Bytes(4326) == [0, 0, 0x10, 0xE6];
    var t := Canonical([0x20, 0, 0, 1], true);
    assert t[0] == 1 && t[1] == 0 && t[2] == 0 && t[3] == 0x20;
    var s := Canonical([0, 0, 0x10, 0xE6], true);
    assert s[0] == 0xE6 && s[1] == 0x10 && s[2] == 0 && s[3] == 0;
  }

  /** The little-endian bytes of the sample's longitude field. */
  lemma SampleLngBytes()
    ensures Canonical(SAMPLE_LNG.bits, true) == [0x3D, 0x0A, 0xD7, 0xA3, 0x70, 0x1D, 0x5C, 0x40]
  {
    var x := Canonical([0x40, 0x5C, 0x1D, 0x70, 0xA3, 0xD7, 0x0A, 0x3D], true);
    assert x[0] == 0x3D && x[1] == 0x0A && x[2] == 0xD7 && x[3] == 0xA3;
    assert x[4] == 0x70 && x[5] == 0x1D && x[6] == 0x5C && x[7] == 0x40;
  }

  /** The little-endian bytes of the sample's latitude field. */
  lemma SampleLatBytes()
    ensures Canonical(SAMPLE_LAT.bits, true) == [0, 0, 0, 0, 0, 0x80, 0x5D, 0xC0]
  {
    var y := Canonical([0xC0, 0x5D, 0x80, 0, 0, 0, 0, 0], true);
    assert y[0] == 0 && y[1] == 0 && y[2] == 0 && y[3] == 0;
    assert y[4] == 0 && y[5] == 0x80 && y[6] == 0x5D && y[7] == 0xC0;
  }

  /** 112.46 and -118.0, the coordinates the sample text holds. */
  const SAMPLE_LNG := Float64([0x40, 0x5C, 0x1D, 0x70, 0xA3, 0xD7, 0x0A, 0x3D])
  const SAMPLE_LAT := Float64([0xC0, 0x5D, 0x80, 0, 0, 0, 0, 0])

  /** The 25 bytes of the sample, a header of 9 and two fields of 8. */
  const SAMPLE_HEADER: seq<Byte> := [1, 1, 0, 0, 0x20, 0xE6, 0x10, 0, 0]
  const SAMPLE_LNG_PART: seq<Byte> := [0x3D, 0x0A, 0xD7, 0xA3, 0x70, 0x1D, 0x5C, 0x40]
  const SAMPLE_LAT_PART: seq<Byte> := [0, 0, 0, 0, 0, 0x80, 0x5D, 0xC0]

  /** The header of the sample, put together from its three parts. */
  lemma SampleHeaderConcat(order: seq<Byte>, geometryType: seq<Byte>, srid: seq<Byte>)
    requires order == [1] && geometryType == [1, 0, 0, 0x20] && srid == [0xE6, 0x10, 0, 0]
    ensures order + geometryType + srid == SAMPLE_HEADER
  {
  }

  /** The encoder writes the sample point as those 25 bytes. */
  lemma SampleBytes()
    ensures EncodePoint(LittleEndian, 0x2000_0001, 4326, SAMPLE_LNG, SAMPLE_LAT)
         == SAMPLE_HEADER + SAMPLE_LNG_PART + SAMPLE_LAT_PART
  {
    assert HasSridFlag(0x2000_0001);
    EncodedSridPointLittleEndian(0x2000_0001, 4326, SAMPLE_LNG, SAMPLE_LAT);
    SampleHeaderBytes();
    SampleLngBytes();
    SampleLatBytes();
    SampleHeaderConcat([1], Canonical(U32Bytes(0x2000_0001), true), Canonical(U32Bytes(4326), true));
  }

  /** The sample text, put together from the texts of its three parts. */
  lemma SampleTextConcat(header: string, lng: string, lat: string)
    requires header == "0101000020E6100000" && lng == "3D0AD7A3701D5C40" && lat == "0000000000805DC0"
    ensures header + lng + lat == "0101000020E61000003D0AD7A3701D5C400000000000805DC0"
  {
  }

  /** The text of the sample's header. */
  lemma SampleHeaderHex()
    ensures ToHex(SAMPLE_HEADER) == "0101000020E6100000"
  {
    var h := ToHex(SAMPLE_HEADER);
    assert h[0] == HexChar(0);
  }

  /** The texts of the sample's two fields. */
  lemma SampleFieldHex()
    ensures ToHex(SAMPLE_LNG_PART) == "3D0AD7A3701D5C40"
    ensures ToHex(SAMPLE_LAT_PART) == "0000000000805DC0"
  {
    var g := ToHex(SAMPLE_LNG_PART);
    assert g[0] == HexChar(3);
    var f := ToHex(SAMPLE_LAT_PART);
    assert f[0] == HexChar(0);
  }

  /** Those 25 bytes print as the sample text. */
  lemma SampleHex()
    ensures ToHex(SAMPLE_HEADER + SAMPLE_LNG_PART + SAMPLE_LAT_PART)
         == "0101000020E61000003D0AD7A3701D5C400000000000805DC0"
  {
    ToHexConcat(SAMPLE_HEADER + SAMPLE_LNG_PART, SAMPLE_LAT_PART);
    ToHexConcat(SAMPLE_HEADER, SAMPLE_LNG_PART);
    SampleHeaderHex();
    SampleFieldHex();
    SampleTextConcat(ToHex(SAMPLE_HEADER), ToHex(SAMPLE_LNG_PART), ToHex(SAMPLE_LAT_PART));
  }

  /** The text `0101000020E61000003D0AD7A3701D5C400000000000805DC0` holds
      longitude 112.46 (`0x405C1D70A3D70A3D`) and latitude -118.0
      (`0xC05D800000000000`), so it gives `null`. */
  lemma SampleTextIsNull()
    ensures Decode(JsString("0101000020E61000003D0AD7A3701D5C400000000000805DC0")) == None
  {
    SampleBytes();
    SampleHex();
    assert !InRange(SAMPLE_LAT, SAMPLE_LNG);
    TextRoundTrip(LittleEndian, 0x2000_0001, 4326, SAMPLE_LNG, SAMPLE_LAT);
  }
}
