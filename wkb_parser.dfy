/** The decoder of PostGIS Extended Well-Known Binary (EWKB) points given as
    hexadecimal text: the header of section 8.2 of OGC Simple Features Access
    Part 1 (byte order, 32-bit geometry type), the PostGIS SRID extension
    (type bit 0x20000000 announces a 4-byte SRID) and two IEEE 754 binary64
    coordinates, X (longitude) then Y (latitude). */
module WkbParser {
  import opened Wrappers
  import JsText

  type Byte = x: int | 0 <= x < 256

  /** The argument as JavaScript sees it: `null`, `undefined`, a string, or
      any other value (a number, an object, ...). */
  datatype JsValue = JsNull | JsUndefined | JsString(text: string) | JsOther

  /** An IEEE 754 binary64 value, kept as its eight bytes with the most
      significant byte (sign and high exponent bits) first. */
  type Bits64 = s: seq<Byte> | |s| == 8 witness [0, 0, 0, 0, 0, 0, 0, 0]
  datatype Float64 = Float64(bits: Bits64)

  datatype LatLng = LatLng(lat: Float64, lng: Float64)

  /** The EWKB flag bit of the geometry type that announces an SRID. */
  const SRID_FLAG: nat := 0x2000_0000
  /** The offset of the coordinates without and with an SRID. */
  const OFFSET_PLAIN: nat := 5
  const OFFSET_WITH_SRID: nat := 9
  /** The bit patterns of the binary64 values 90.0 and 180.0. */
  const LAT_LIMIT_BITS: nat := 0x4056_8000_0000_0000
  const LNG_LIMIT_BITS: nat := 0x4066_8000_0000_0000

  // ----- Text to bytes -------------------------------------------------------

  /** `hex.replace(/^\\x/, '')`: one literal backslash-x, only at the start. */
  function StripEscapePrefix(s: string): (r: string)
    ensures JsText.StartsWith(s, "\\x") ==> s == "\\x" + r
    ensures !JsText.StartsWith(s, "\\x") ==> r == s
  {
    if JsText.StartsWith(s, "\\x") then s[2..] else s
  }

  /** The conversion `setUint8` applies to the number it stores: `NaN` becomes
      0 and an integer is taken modulo 256. */
  function ToUint8(n: JsText.JsNumber): (r: Byte)
    ensures n.NaN? ==> r == 0
    ensures n.Num? && 0 <= n.value < 256 ==> r == n.value
    ensures n.Num? && -256 <= n.value < 0 ==> r == n.value + 256
  {
    match n
    case NaN => 0
    case Num(v) => v % 256
  }

  /** The byte the fill loop stores at index `k`: characters `2k` and `2k+1`
      read by `parseInt(_, 16)`. */
  function PairByte(s: string, k: nat): Byte {
    ToUint8(JsText.ParseIntHex(JsText.Substring(s, 2 * k, 2 * k + 2)))
  }

  /** The buffer the fill loop leaves behind, or `None` when it throws: it
      throws exactly when the text has odd length, because the buffer has
      `floor(len/2)` bytes and the last half pair is stored one past its end. */
  function HexToBytes(s: string): (r: Option<seq<Byte>>)
    ensures r.Some? <==> |s| % 2 == 0
    ensures r.Some? ==> |r.value| == |s| / 2
    ensures r.Some? ==> forall k :: 0 <= k < |r.value| ==> r.value[k] == PairByte(s, k)
  {
    if |s| % 2 == 1 then None
    else Some(seq(|s| / 2, k requires 0 <= k < |s| / 2 => PairByte(s, k)))
  }

  // ----- Reading fields --------------------------------------------------------

  function Reverse(s: seq<Byte>): (r: seq<Byte>)
    ensures |r| == |s|
    ensures forall i :: 0 <= i < |s| ==> r[i] == s[|s| - 1 - i]
  {
    if s == [] then [] else Reverse(s[1..]) + [s[0]]
  }

  /** The bytes of a field put most significant first. */
  function Canonical(raw: seq<Byte>, littleEndian: bool): (r: seq<Byte>)
    ensures |r| == |raw|
  {
    if littleEndian then Reverse(raw) else raw
  }

  /** The unsigned value of four bytes, most significant first. */
  function U32Of(c: seq<Byte>): (r: nat)
    requires |c| == 4
    ensures r < 0x1_0000_0000
  {
    c[0] as int * 0x100_0000 + c[1] as int * 0x1_0000 + c[2] as int * 0x100 + c[3] as int
  }

  /** `getUint8(i)`: `None` stands for the RangeError past the end. */
  function ByteAt(buf: seq<Byte>, i: nat): (r: Option<Byte>)
    ensures r.Some? <==> i < |buf|
  {
    if i < |buf| then Some(buf[i]) else None
  }

  /** `getUint32(i, littleEndian)`. */
  function U32At(buf: seq<Byte>, i: nat, littleEndian: bool): (r: Option<nat>)
    ensures r.Some? <==> i + 4 <= |buf|
    ensures r.Some? && littleEndian ==>
              r.value == buf[i + 3] as int * 0x100_0000 + buf[i + 2] as int * 0x1_0000 + buf[i + 1] as int * 0x100 + buf[i] as int
    ensures r.Some? && !littleEndian ==>
              r.value == buf[i] as int * 0x100_0000 + buf[i + 1] as int * 0x1_0000 + buf[i + 2] as int * 0x100 + buf[i + 3] as int
  {
    if i + 4 <= |buf| then Some(U32Of(Canonical(buf[i..i + 4], littleEndian))) else None
  }

  /** `getFloat64(i, littleEndian)`. */
  function F64At(buf: seq<Byte>, i: nat, littleEndian: bool): (r: Option<Float64>)
    ensures r.Some? <==> i + 8 <= |buf|
    ensures r.Some? ==> forall m :: 0 <= m < 8 ==>
              r.value.bits[m] == if littleEndian then buf[i + 7 - m] else buf[i + m]
  {
    if i + 8 <= |buf| then Some(Float64(Canonical(buf[i..i + 8], littleEndian))) else None
  }

  /** `(type & 0x20000000) !== 0`: bit 29 is set, that is, the value modulo
      2^30 is at least 2^29. */
  predicate HasSridFlag(geometryType: nat): (r: bool)
    ensures r <==> geometryType % 0x4000_0000 >= SRID_FLAG
  {
    var high, low := geometryType / 0x4000_0000, geometryType % 0x4000_0000;
    assert geometryType == high * 0x4000_0000 + low;
    assert geometryType / SRID_FLAG == 2 * high + low / SRID_FLAG;
    (geometryType / SRID_FLAG) % 2 == 1
  }

  /** Where the coordinates start: after the SRID when the flag is set. */
  function CoordinateOffset(geometryType: nat): (r: nat)
    ensures r == OFFSET_WITH_SRID || r == OFFSET_PLAIN
    ensures r == OFFSET_WITH_SRID <==> HasSridFlag(geometryType)
  {
    if HasSridFlag(geometryType) then OFFSET_WITH_SRID else OFFSET_PLAIN
  }

  // ----- The range check -------------------------------------------------------

  /** The bit pattern without the sign bit. */
  function Magnitude(f: Float64): nat {
    var b := f.bits;
    (b[0] as int % 128) * 0x100_0000_0000_0000 + b[1] as int * 0x1_0000_0000_0000
    + b[2] as int * 0x100_0000_0000 + b[3] as int * 0x1_0000_0000 + b[4] as int * 0x100_0000
    + b[5] as int * 0x1_0000 + b[6] as int * 0x100 + b[7] as int
  }

  /** Not an infinity or a NaN: the exponent bits are not all ones. */
  predicate IsFinite(f: Float64) {
    !(f.bits[0] % 128 == 0x7F && f.bits[1] >= 0xF0)
  }

  /** `lat >= -90 && lat <= 90 && lng >= -180 && lng <= 180` on binary64
      values. For IEEE 754 values that are not NaN, the absolute value grows
      with the bit pattern once the sign bit is cleared, and every NaN has a
      larger pattern than any finite value; so `-L <= x <= L` holds exactly
      when the sign-cleared pattern of `x` is at most the pattern of `L`
      (NaN, which fails every comparison, fails this one too). */
  predicate InRange(lat: Float64, lng: Float64): (r: bool)
    ensures r ==> IsFinite(lat) && IsFinite(lng)
  {
    Magnitude(lat) <= LAT_LIMIT_BITS && Magnitude(lng) <= LNG_LIMIT_BITS
  }

  // ----- The decoder as a function ---------------------------------------------

  /** The result for the bytes of the buffer; each `:-` is a read that may
      throw, and a throw ends in `null`. */
  function DecodeBuffer(buf: seq<Byte>): (r: Option<LatLng>)
    ensures |buf| < OFFSET_PLAIN + 16 ==> r.None?
    ensures r.Some? ==> InRange(r.value.lat, r.value.lng)
  {
    var order :- ByteAt(buf, 0);
    var littleEndian := order == 1;
    var geometryType :- U32At(buf, 1, littleEndian);
    var offset := CoordinateOffset(geometryType);
    var lng :- F64At(buf, offset, littleEndian);
    var lat :- F64At(buf, offset + 8, littleEndian);
    if InRange(lat, lng) then Some(LatLng(lat, lng)) else None
  }

  /** What `parsePostGISPoint` returns: `null` for a falsy or non-string
      argument, otherwise the result of decoding the cleaned text. */
  function Decode(hex: JsValue): (r: Option<LatLng>)
    ensures !hex.JsString? || hex.text == "" ==> r.None?
    ensures hex.JsString? && |hex.text| % 2 == 1 ==> r.None?
    ensures r.Some? ==> InRange(r.value.lat, r.value.lng)
  {
    match hex
    case JsString(s) =>
      if s == "" then None
      else
        var clean := StripEscapePrefix(s);
        assert |clean| % 2 == |s| % 2;
        var buf :- HexToBytes(clean);
        DecodeBuffer(buf)
    case _ => None
  }

  // ----- The decoder over a DataView, step by step -------------------------------

  /** A `DataView` over a fresh `ArrayBuffer`. Each access past the end throws
      a RangeError, which the methods report as `false` or `None`. */
  class DataView {
    const buffer: array<Byte>

    /** `new DataView(new ArrayBuffer(byteLength))`: zero-filled. */
    constructor (byteLength: nat)
      ensures fresh(buffer)
      ensures buffer[..] == seq(byteLength, _ => 0)
    {
      buffer := new Byte[byteLength](_ => 0);
    }

    /** `setUint8(index, value)`. */
    method SetUint8(index: nat, value: JsText.JsNumber) returns (ok: bool)
      modifies buffer
      ensures ok == (index < buffer.Length)
      ensures buffer[..] == if ok then old(buffer[..])[index := ToUint8(value)] else old(buffer[..])
      ensures ok ==> buffer[index] == ToUint8(value)
      ensures forall k :: 0 <= k < buffer.Length && k != index ==> buffer[k] == old(buffer[k])
    {
      ok := index < buffer.Length;
      if ok {
        buffer[index] := ToUint8(value);
      }
    }

    /** `getUint8(index)`. */
    method GetUint8(index: nat) returns (r: Option<Byte>)
      ensures r == ByteAt(buffer[..], index)
    {
      if index < buffer.Length {
        r := Some(buffer[index]);
      } else {
        r := None;
      }
    }

    /** `getUint32(index, littleEndian)`, as byte arithmetic. */
    method GetUint32(index: nat, littleEndian: bool) returns (r: Option<nat>)
      ensures r == U32At(buffer[..], index, littleEndian)
    {
      if index + 4 <= buffer.Length {
        var b0: int, b1: int, b2: int, b3: int := buffer[index], buffer[index + 1], buffer[index + 2], buffer[index + 3];
        if littleEndian {
          r := Some(b3 * 0x100_0000 + b2 * 0x1_0000 + b1 * 0x100 + b0);
        } else {
          r := Some(b0 * 0x100_0000 + b1 * 0x1_0000 + b2 * 0x100 + b3);
        }
      } else {
        r := None;
      }
    }

    /** `getFloat64(index, littleEndian)`: the eight bytes, most significant
        first. */
    method GetFloat64(index: nat, littleEndian: bool) returns (r: Option<Float64>)
      ensures r == F64At(buffer[..], index, littleEndian)
    {
      if index + 8 <= buffer.Length {
        var raw := new Byte[8];
        var j := 0;
        while j < 8
          invariant 0 <= j <= 8
          invariant forall m :: 0 <= m < j ==>
            raw[m] == if littleEndian then buffer[index + 7 - m] else buffer[index + m]
        {
          raw[j] := if littleEndian then buffer[index + 7 - j] else buffer[index + j];
          j := j + 1;
        }
        var expected := F64At(buffer[..], index, littleEndian).value;
        assert raw[..] == expected.bits;
        r := Some(Float64(raw[..]));
      } else {
        r := None;
      }
    }
  }

  /** One round of the fill loop: characters `i` and `i+1` stored at byte
      `i / 2`, which throws when that byte is past the end. */
  method StorePair(view: DataView, cleanHex: string, i: nat) returns (ok: bool)
    requires i % 2 == 0
    modifies view.buffer
    ensures ok <==> i / 2 < view.buffer.Length
    ensures ok ==> view.buffer[i / 2] == PairByte(cleanHex, i / 2)
    ensures forall k :: 0 <= k < view.buffer.Length && k != i / 2 ==> view.buffer[k] == old(view.buffer[k])
  {
    var k := i / 2;
    assert 2 * k == i && 2 * k + 2 == i + 2;
    var byte := JsText.ParseIntHex(JsText.Substring(cleanHex, i, i + 2));
    assert ToUint8(byte) == PairByte(cleanHex, k);
    ok := view.SetUint8(k, byte);
  }

  /** Step 2 of `parsePostGISPoint`: the loop that stores each pair of
      characters into a buffer of `floor(len/2)` bytes; `ok` is false when a
      store throws, which happens exactly for text of odd length. */
  method Fill(view: DataView, cleanHex: string) returns (ok: bool)
    requires view.buffer.Length == |cleanHex| / 2
    modifies view.buffer
    ensures ok <==> |cleanHex| % 2 == 0
    ensures ok ==> forall k :: 0 <= k < view.buffer.Length ==> view.buffer[k] == PairByte(cleanHex, k)
  {
    var i := 0;
    ghost var stored := 0;
    while i < |cleanHex|
      invariant i == 2 * stored && i <= |cleanHex|
      invariant forall k :: 0 <= k < stored ==> view.buffer[k] == PairByte(cleanHex, k)
    {
      assert i / 2 == stored;
      ok := StorePair(view, cleanHex, i);
      if !ok {
        assert stored == view.buffer.Length;
        return;
      }
      i, stored := i + 2, stored + 1;
    }
    ok := true;
  }

  /** Steps 1 and 2 of `parsePostGISPoint`: a fresh buffer, filled; `ok` is
      false when a store throws. */
  method FillView(cleanHex: string) returns (view: DataView, ok: bool)
    ensures fresh(view.buffer)
    ensures ok == HexToBytes(cleanHex).Some?
    ensures ok ==> view.buffer[..] == HexToBytes(cleanHex).value
  {
    view := new DataView(|cleanHex| / 2);
    ok := Fill(view, cleanHex);
    if ok {
      assert view.buffer[..] == HexToBytes(cleanHex).value;
    }
  }

  /** Steps 3 to 7 of `parsePostGISPoint` on a filled buffer. */
  method ReadPoint(view: DataView) returns (r: Option<LatLng>)
    ensures r == DecodeBuffer(view.buffer[..])
  {
    var order := view.GetUint8(0);
    if order.None? {
      return None;
    }
    var isLittleEndian := order.value == 1;
    var geometryType := view.GetUint32(1, isLittleEndian);
    if geometryType.None? {
      return None;
    }
    var offset := 5;
    if HasSridFlag(geometryType.value) {
      offset := offset + 4;
    }
    var lng := view.GetFloat64(offset, isLittleEndian);
    if lng.None? {
      return None;
    }
    var lat := view.GetFloat64(offset + 8, isLittleEndian);
    if lat.None? {
      return None;
    }
    if InRange(lat.value, lng.value) {
      return Some(LatLng(lat.value, lng.value));
    }
    return None;
  }

  /** `parsePostGISPoint(hex)`: every RangeError is caught and gives `None`. */
  method ParsePostGISPoint(hex: JsValue) returns (r: Option<LatLng>)
    ensures r == Decode(hex)
  {
    if !hex.JsString? || hex.text == "" {
      return None;
    }
    var cleanHex := StripEscapePrefix(hex.text);
    var view, ok := FillView(cleanHex);
    if !ok {
      return None;
    }
    r := ReadPoint(view);
  }
}
