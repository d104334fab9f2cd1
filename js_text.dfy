/** The JavaScript string operations the modelled components use:
    `startsWith`, `substring` and `parseInt(_, 16)`. Strings are sequences
    of characters. */
module JsText {

  /** A JavaScript number as `parseInt` can produce it: `NaN` or an integer. */
  datatype JsNumber = NaN | Num(value: int)

  /** `s.startsWith(prefix)`: `s` is `prefix` followed by the rest of `s`. */
  predicate StartsWith(s: string, prefix: string): (r: bool)
    ensures r <==> |prefix| <= |s| && s == prefix + s[|prefix|..]
  {
    |prefix| <= |s| && s[..|prefix|] == prefix
  }

  function Clamp(i: int, len: nat): (r: nat)
    ensures r <= len
  {
    if i < 0 then 0 else if i > len then len else i
  }

  /** `s.substring(start, end)`: both ends are clamped to `0..|s|`, and a
      start past the end swaps them. */
  function Substring(s: string, start: int, end: int): (r: string)
    ensures |r| <= |s|
    ensures 0 <= start <= end <= |s| ==> r == s[start..end]
  {
    var a := Clamp(start, |s|);
    var b := Clamp(end, |s|);
    if a <= b then s[a..b] else s[b..a]
  }

  /** The characters `parseInt` skips before a number: the white space and line
      terminators of ECMAScript (tab, vertical tab, form feed, space, no-break
      space, byte order mark, the other space separators, LF, CR, LS, PS). */
  predicate IsStrWhiteSpace(c: char) {
    c in {'\t', '\U{000B}', '\U{000C}', ' ', '\U{00A0}', '\U{FEFF}', '\U{1680}',
          '\U{2000}', '\U{2001}', '\U{2002}', '\U{2003}', '\U{2004}', '\U{2005}',
          '\U{2006}', '\U{2007}', '\U{2008}', '\U{2009}', '\U{200A}', '\U{202F}',
          '\U{205F}', '\U{3000}', '\n', '\r', '\U{2028}', '\U{2029}'}
  }

  predicate IsHexDigit(c: char) {
    '0' <= c <= '9' || 'a' <= c <= 'f' || 'A' <= c <= 'F'
  }

  function HexDigitValue(c: char): (r: nat)
    requires IsHexDigit(c)
    ensures r < 16
  {
    if '0' <= c <= '9' then c as int - '0' as int
    else if 'a' <= c <= 'f' then c as int - 'a' as int + 10
    else c as int - 'A' as int + 10
  }

  /** `s` without its leading white space: a suffix of `s`. */
  function TrimStart(s: string): (r: string)
    ensures |r| <= |s| && r == s[|s| - |r|..]
    ensures r == [] || !IsStrWhiteSpace(r[0])
  {
    if s != [] && IsStrWhiteSpace(s[0]) then TrimStart(s[1..]) else s
  }

  /** The longest prefix of `s` made of hexadecimal digits. */
  function LeadingHexDigits(s: string): (r: string)
    ensures |r| <= |s| && r == s[..|r|]
    ensures forall i :: 0 <= i < |r| ==> IsHexDigit(r[i])
    ensures |r| < |s| ==> !IsHexDigit(s[|r|])
  {
    if s != [] && IsHexDigit(s[0]) then [s[0]] + LeadingHexDigits(s[1..]) else []
  }

  /** The value of a string of hexadecimal digits, most significant first. */
  function HexValue(digits: string): (r: nat)
    requires forall i :: 0 <= i < |digits| ==> IsHexDigit(digits[i])
    ensures |digits| <= 1 ==> r < 16
    ensures |digits| <= 2 ==> r < 256
  {
    if digits == [] then 0
    else HexValue(digits[..|digits| - 1]) * 16 + HexDigitValue(digits[|digits| - 1])
  }

  /** `parseInt(s, 16)`: skip leading white space, take one optional sign and
      then one optional `0x`/`0X`, and read the longest run of hexadecimal
      digits after them; no digit at all gives `NaN`. Two characters give a
      value that fits a byte, or the negation of one digit. */
  function ParseIntHex(s: string): (r: JsNumber)
    ensures |s| <= 2 && r.Num? ==> -16 < r.value < 256
  {
    var t := TrimStart(s);
    var negative := t != [] && t[0] == '-';
    var unsigned := if t != [] && (t[0] == '-' || t[0] == '+') then t[1..] else t;
    var body := if |unsigned| >= 2 && unsigned[0] == '0' && (unsigned[1] == 'x' || unsigned[1] == 'X')
                then unsigned[2..] else unsigned;
    var digits := LeadingHexDigits(body);
    if digits == [] then NaN
    else Num(if negative then -(HexValue(digits) as int) else HexValue(digits))
  }

  /** No hexadecimal digit is white space. */
  lemma HexDigitNotSpace(c: char)
    requires IsHexDigit(c)
    ensures !IsStrWhiteSpace(c)
  {
  }

  /** Two hexadecimal digits parse to their value, high nibble first. */
  lemma HexPairValue(c1: char, c2: char)
    requires IsHexDigit(c1) && IsHexDigit(c2)
    ensures ParseIntHex([c1, c2]) == Num(16 * HexDigitValue(c1) + HexDigitValue(c2))
  {
    var s := [c1, c2];
    HexDigitNotSpace(c1);
    assert TrimStart(s) == s;
    assert !(c2 == 'x' || c2 == 'X');
    assert LeadingHexDigits([c2]) == [c2] by {
      assert [c2][1..] == [];
    }
    assert LeadingHexDigits(s) == s by {
      assert s[1..] == [c2];
    }
    assert HexValue([c1]) == HexDigitValue(c1) by {
      assert [c1][..0] == [];
    }
    assert s[..1] == [c1];
  }

  /** Text without any hexadecimal digit parses to `NaN`: what is left after
      the white space, the sign and the `0x` is a suffix of it, so it does not
      start with a digit. */
  lemma ParseIntHexNoDigit(s: string)
    requires forall i :: 0 <= i < |s| ==> !IsHexDigit(s[i])
    ensures ParseIntHex(s) == NaN
  {
    var t := TrimStart(s);
    forall i | 0 <= i < |t|
      ensures !IsHexDigit(t[i])
    {
      assert t[i] == s[|s| - |t| + i];
    }
    var unsigned := if t != [] && (t[0] == '-' || t[0] == '+') then t[1..] else t;
    if unsigned != [] {
      assert unsigned[0] == t[|t| - |unsigned|];
      assert unsigned[0] != '0';
    }
    assert LeadingHexDigits(unsigned) == [];
  }

  /** A digit followed by a non-digit parses to that digit, except `0x` and
      `0X`, which are a prefix with no digit after it and parse to `NaN`. */
  lemma ParseIntHexPartialPair(c1: char, c2: char)
    requires IsHexDigit(c1) && !IsHexDigit(c2)
    ensures c1 == '0' && (c2 == 'x' || c2 == 'X') ==> ParseIntHex([c1, c2]) == NaN
    ensures !(c1 == '0' && (c2 == 'x' || c2 == 'X')) ==> ParseIntHex([c1, c2]) == Num(HexDigitValue(c1))
  {
    var s := [c1, c2];
    HexDigitNotSpace(c1);
    assert TrimStart(s) == s;
    assert s[2..] == [];
    assert LeadingHexDigits([c2]) == [];
    assert LeadingHexDigits(s) == [c1] by {
      assert s[1..] == [c2];
    }
    assert HexValue([c1]) == HexDigitValue(c1) by {
      assert [c1][..0] == [];
    }
  }

  /** A sign before a digit is honoured. */
  lemma ParseIntHexSigned(sign: char, c: char)
    requires (sign == '-' || sign == '+') && IsHexDigit(c)
    ensures ParseIntHex([sign, c]) == Num(if sign == '-' then -(HexDigitValue(c) as int) else HexDigitValue(c))
  {
    var s := [sign, c];
    assert !IsStrWhiteSpace(sign);
    assert TrimStart(s) == s;
    assert s[1..] == [c];
    assert LeadingHexDigits([c]) == [c] by {
      assert [c][1..] == [];
    }
    assert HexValue([c]) == HexDigitValue(c) by {
      assert [c][..0] == [];
    }
  }

  /** White space before a digit is skipped. */
  lemma ParseIntHexLeadingSpace(w: char, c: char)
    requires IsStrWhiteSpace(w) && IsHexDigit(c)
    ensures ParseIntHex([w, c]) == Num(HexDigitValue(c))
  {
    var s := [w, c];
    HexDigitNotSpace(c);
    assert s[1..] == [c];
    assert TrimStart([c]) == [c];
    assert TrimStart(s) == TrimStart(s[1..]);
    assert LeadingHexDigits([c]) == [c] by {
      assert [c][1..] == [];
    }
    assert HexValue([c]) == HexDigitValue(c) by {
      assert [c][..0] == [];
    }
  }
}
