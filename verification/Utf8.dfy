/** The encoder of code points as UTF-8 and the validator of UTF-8 text. */
module Utf8 {
  type Byte = b: int | 0 <= b < 0x100
  type UInt32 = c: int | 0 <= c < 0x1_0000_0000

  const MAX_CODE_POINT_1: UInt32 := 0x7F
  const MAX_CODE_POINT_2: UInt32 := 0x7FF
  const MAX_CODE_POINT_3: UInt32 := 0xFFFF
  const MAX_CODE_POINT_4: UInt32 := 0x1F_FFFF

  // ----- RFC 3629 -----

  predicate Tail(b: Byte) { 0x80 <= b <= 0xBF }

  /** UTF8-char of section 4. */
  predicate IsUtf8Char(s: seq<Byte>) {
    match |s|
    case 1 => s[0] <= 0x7F
    case 2 => 0xC2 <= s[0] <= 0xDF && Tail(s[1])
    case 3 =>
      || (s[0] == 0xE0 && 0xA0 <= s[1] <= 0xBF && Tail(s[2]))
      || (0xE1 <= s[0] <= 0xEC && Tail(s[1]) && Tail(s[2]))
      || (s[0] == 0xED && 0x80 <= s[1] <= 0x9F && Tail(s[2]))
      || (0xEE <= s[0] <= 0xEF && Tail(s[1]) && Tail(s[2]))
    case 4 =>
      || (s[0] == 0xF0 && 0x90 <= s[1] <= 0xBF && Tail(s[2]) && Tail(s[3]))
      || (0xF1 <= s[0] <= 0xF3 && Tail(s[1]) && Tail(s[2]) && Tail(s[3]))
      || (s[0] == 0xF4 && 0x80 <= s[1] <= 0x8F && Tail(s[2]) && Tail(s[3]))
    case _ => false
  }

  function Flatten(chars: seq<seq<Byte>>): seq<Byte> {
    if chars == [] then [] else chars[0] + Flatten(chars[1..])
  }

  ghost predicate AllChars(chars: seq<seq<Byte>>) {
    forall k :: 0 <= k < |chars| ==> IsUtf8Char(chars[k])
  }

  /** UTF8-octets of section 4: some number of well-formed characters, one after the other. */
  ghost predicate IsUtf8(s: seq<Byte>) {
    exists chars :: AllChars(chars) && Flatten(chars) == s
  }

  /** The number of bytes of the only characters that can start with `lead`; 0 when none can. */
  function CharLength(lead: Byte): nat {
    if lead <= 0x7F then 1
    else if lead < 0xC2 then 0
    else if lead <= 0xDF then 2
    else if lead <= 0xEF then 3
    else if lead <= 0xF4 then 4
    else 0
  }

  predicate StartsWithChar(s: seq<Byte>) {
    s != [] && 0 < CharLength(s[0]) <= |s| && IsUtf8Char(s[..CharLength(s[0])])
  }

  lemma CharHasItsLength(c: seq<Byte>)
    requires IsUtf8Char(c)
    ensures c != [] && |c| == CharLength(c[0])
  {
  }

  /** There is only one way to read the first character. */
  lemma Utf8Step(s: seq<Byte>)
    requires s != []
    ensures IsUtf8(s) <==> StartsWithChar(s) && IsUtf8(s[CharLength(s[0])..])
  {
    hide IsUtf8Char;
    if IsUtf8(s) {
      var chars :| AllChars(chars) && Flatten(chars) == s;
      CharHasItsLength(chars[0]);
      var n := |chars[0]|;
      assert s == chars[0] + Flatten(chars[1..]);
      assert s[..n] == chars[0] && s[n..] == Flatten(chars[1..]);
      assert AllChars(chars[1..]);
    }
    if StartsWithChar(s) && IsUtf8(s[CharLength(s[0])..]) {
      var n := CharLength(s[0]);
      var rest :| AllChars(rest) && Flatten(rest) == s[n..];
      var chars := [s[..n]] + rest;
      assert chars[1..] == rest && s == s[..n] + s[n..];
      assert AllChars(chars) && Flatten(chars) == s;
    }
  }

  lemma EmptyIsUtf8()
    ensures IsUtf8([])
  {
    assert AllChars([]) && Flatten([]) == [];
  }

  // ----- the validator -----

  predicate IsUTF8TrailByte(t: Byte) { 0x80 <= t && t <= 0xbf }

  method IsValidUTF8(s: seq<Byte>) returns (valid: bool)
    ensures valid <==> IsUtf8(s)
  {
    hide IsUtf8;
    var length := |s|;
    var i := 0;
    assert s[0..] == s;
    while i < length
      invariant i <= length
      invariant IsUtf8(s) <==> IsUtf8(s[i..])
      decreases length - i
    {
      Utf8Step(s[i..]);
      ghost var start := i;
      var lead := s[i];
      i := i + 1;
      hide IsUtf8;
      if lead <= 0x7f {
      } else if lead < 0xc2 {
        return false;
      } else if lead <= 0xdf && i + 1 <= length && IsUTF8TrailByte(s[i]) {
        i := i + 1;
      } else if 0xe0 <= lead && lead <= 0xef && i + 2 <= length
        && IsUTF8TrailByte(s[i])
        && IsUTF8TrailByte(s[i + 1])
        && (lead != 0xe0 || s[i] >= 0xa0)
        && (lead != 0xed || s[i] < 0xa0)
      {
        i := i + 2;
      } else if 0xf0 <= lead && lead <= 0xf4 && i + 3 <= length
        && IsUTF8TrailByte(s[i])
        && IsUTF8TrailByte(s[i + 1])
        && IsUTF8TrailByte(s[i + 2])
        && (lead != 0xf0 || s[i] >= 0x90)
        && (lead != 0xf4 || s[i] < 0x90)
      {
        i := i + 3;
      } else {
        return false;
      }
      assert s[start..][i - start..] == s[i..];
    }
    assert s[i..] == [];
    EmptyIsUtf8();
    return true;
  }

  // ----- the encoder -----

  // Bytes and code points are numbers here: a mask of low bits is a remainder, a shift a quotient,
  // and setting mark bits above the highest bit of a number adds the mark to it.

  /** One of the byte patterns in the table of section 3; this leaves longer forms than needed allowed. */
  predicate HasPattern(s: seq<Byte>) {
    match |s|
    case 1 => s[0] < 0x80
    case 2 => 0xC0 <= s[0] < 0xE0 && Tail(s[1])
    case 3 => 0xE0 <= s[0] < 0xF0 && Tail(s[1]) && Tail(s[2])
    case 4 => 0xF0 <= s[0] < 0xF8 && Tail(s[1]) && Tail(s[2]) && Tail(s[3])
    case _ => false
  }

  /** The number in the bits a pattern leaves free, read from left to right. */
  function Payload(s: seq<Byte>): nat
    requires HasPattern(s)
  {
    match |s|
    case 1 => s[0]
    case 2 => Joined(s[0] - 0xC0, s[1])
    case 3 => Joined(Joined(s[0] - 0xE0, s[1]), s[2])
    case _ => Joined(Joined(Joined(s[0] - 0xF0, s[1]), s[2]), s[3])
  }

  /** `high` with the six free bits of a tail byte behind it. */
  function Joined(high: nat, tail: Byte): (joined: nat)
    requires Tail(tail)
    ensures joined / 0x40 == high && joined % 0x40 == tail - 0x80
  {
    high * 0x40 + (tail - 0x80)
  }

  /** The length section 3 gives to each range of numbers. */
  function Width(c: nat): nat {
    if c <= 0x7F then 1 else if c <= 0x7FF then 2 else if c <= 0xFFFF then 3 else 4
  }

  predicate Encodes(s: seq<Byte>, c: nat) {
    HasPattern(s) && Payload(s) == c && |s| == Width(c)
  }

  /** Code points other than the surrogates, that is, what UTF-8 can express. */
  predicate IsScalarValue(c: nat) {
    c <= 0x10FFFF && !(0xD800 <= c <= 0xDFFF)
  }

  function Pow2(n: nat): (p: nat)
    ensures p > 0
  {
    if n == 0 then 1 else 2 * Pow2(n - 1)
  }

  lemma SixBits()
    ensures Pow2(6) == 0x40
  {
    assert Pow2(2) == 4 && Pow2(4) == 16;
  }

  /** The `n` low bits, and what a shift by `n` leaves. */
  method ChopLowBits(bits: UInt32, n: nat) returns (lowBits: UInt32, rest: UInt32)
    ensures lowBits < Pow2(n) && rest * Pow2(n) + lowBits == bits
  {
    hide Pow2;
    Quotient(bits, Pow2(n));
    lowBits, rest := bits % Pow2(n), bits / Pow2(n);
  }

  lemma Quotient(n: nat, d: nat)
    requires d > 0
    ensures 0 <= n % d < d && 0 <= n % d <= n && 0 <= n / d <= n && n / d * d + n % d == n
  {
    var q, r := n / d, n % d;
    assert q * d + r == n && 0 <= r < d;
    assert (q + 1) * d == q * d + d;
    Multiple(q + 1, d);
    Multiple(q, d);
  }

  lemma Multiple(q: int, d: int)
    requires d > 0
    ensures if q <= 0 then q * d <= 0 else q <= q * d
  {
    assert q * d == q * (d - 1) + q;
  }

  /** The text of a character array: what stands in front of its first zero. */
  function CText(s: seq<Byte>): (text: seq<Byte>)
    requires 0 in s
  {
    if s[0] == 0 then [] else [s[0]] + CText(s[1..])
  }

  lemma {:induction false} CTextEnds(s: seq<Byte>, n: nat)
    requires n < |s| && s[n] == 0 && 0 !in s[..n]
    ensures CText(s) == s[..n]
  {
    if n > 0 {
      assert s[..n][0] == s[0];
      assert s[1..][..n - 1] == s[..n][1..];
      CTextEnds(s[1..], n - 1);
    }
  }

  // ----- the text for numbers that are too large -----

  function HexDigit(d: nat): Byte
    requires d < 16
  {
    if d < 10 then '0' as int + d else 'A' as int + (d - 10)
  }

  /** Upper-case hexadecimal digits without leading zeros. */
  function FormatHexInt(value: nat): (text: seq<Byte>)
    ensures text != []
  {
    if value < 16 then [HexDigit(value)] else FormatHexInt(value / 16) + [HexDigit(value % 16)]
  }

  function HexDigitValue(b: Byte): int { if b <= '9' as int then b - '0' as int else b - 'A' as int + 10 }

  function HexValue(text: seq<Byte>): int {
    if text == [] then 0 else 16 * HexValue(text[..|text| - 1]) + HexDigitValue(text[|text| - 1])
  }

  /** The digits name the number, and are ASCII. */
  lemma {:induction false} HexNamesNumber(value: nat)
    ensures HexValue(FormatHexInt(value)) == value
    ensures forall k :: 0 <= k < |FormatHexInt(value)| ==> FormatHexInt(value)[k] <= 0x7F
  {
    if value < 16 {
      assert [HexDigit(value)][..0] == [];
    } else {
      HexNamesNumber(value / 16);
      var high := FormatHexInt(value / 16);
      assert (high + [HexDigit(value % 16)])[..|high|] == high;
    }
  }

  function Ascii(s: string): (bytes: seq<Byte>)
    requires forall k :: 0 <= k < |s| ==> s[k] as int <= 0x7F
    ensures |bytes| == |s| && forall k :: 0 <= k < |s| ==> bytes[k] == s[k] as int
  {
    seq(|s|, k requires 0 <= k < |s| => s[k] as int)
  }

  function InvalidText(codePoint: UInt32): seq<Byte> {
    Ascii("(Invalid Unicode 0x") + FormatHexInt(codePoint) + Ascii(")")
  }

  lemma {:induction false} AsciiIsUtf8(s: seq<Byte>)
    requires forall k :: 0 <= k < |s| ==> s[k] <= 0x7F
    ensures IsUtf8(s)
  {
    hide IsUtf8;
    if s == [] {
      EmptyIsUtf8();
    } else {
      AsciiIsUtf8(s[1..]);
      Utf8Step(s);
      assert s[..1][0] == s[0];
    }
  }

  lemma InvalidTextIsUtf8(codePoint: UInt32)
    ensures IsUtf8(InvalidText(codePoint))
  {
    HexNamesNumber(codePoint);
    AsciiIsUtf8(InvalidText(codePoint));
  }

  lemma TextIsUtf8(text: seq<Byte>, codePoint: UInt32)
    requires if codePoint == 0 then text == []
      else if codePoint <= MAX_CODE_POINT_4 then Encodes(text, codePoint)
      else text == InvalidText(codePoint)
    ensures IsUtf8(text) <==> IsScalarValue(codePoint) || codePoint > MAX_CODE_POINT_4
  {
    hide IsUtf8, Encodes;
    if codePoint == 0 {
      EmptyIsUtf8();
    } else if codePoint <= MAX_CODE_POINT_4 {
      ValidIffScalarValue(text, codePoint);
    } else {
      InvalidTextIsUtf8(codePoint);
    }
  }

  method CodePointToUtf8(codePoint: UInt32) returns (text: seq<Byte>)
    ensures text == InvalidText(codePoint) <==> codePoint > MAX_CODE_POINT_4
    ensures codePoint == 0 ==> text == []
    ensures 0 < codePoint <= MAX_CODE_POINT_4 ==> Encodes(text, codePoint)
    ensures IsUtf8(text) <==> IsScalarValue(codePoint) || codePoint > MAX_CODE_POINT_4
  {
    hide CText, Pow2, Encodes, HasPattern, Payload, IsUtf8, InvalidText, IsScalarValue;
    SixBits();
    var c, low: UInt32 := codePoint, 0;
    if c > MAX_CODE_POINT_4 {
      TextIsUtf8(InvalidText(codePoint), codePoint);
      return InvalidText(codePoint);
    }
    var str := new Byte[5];
    if c <= MAX_CODE_POINT_1 {
      str[1] := 0;
      str[0] := c;
      assert str[..1] == [c];
      OneByte(c);
    } else if c <= MAX_CODE_POINT_2 {
      str[2] := 0;
      low, c := ChopLowBits(c, 6);
      TwoBytes(codePoint, c, low);
      str[1] := 0x80 + low;
      str[0] := 0xC0 + c;
      assert str[..2] == [str[0], str[1]];
    } else if c <= MAX_CODE_POINT_3 {
      str[3] := 0;
      low, c := ChopLowBits(c, 6);
      str[2] := 0x80 + low;
      ghost var low0 := low;
      low, c := ChopLowBits(c, 6);
      ThreeBytes(codePoint, c, low, low0);
      str[1] := 0x80 + low;
      str[0] := 0xE0 + c;
      assert str[..3] == [str[0], str[1], str[2]];
    } else {
      str[4] := 0;
      low, c := ChopLowBits(c, 6);
      str[3] := 0x80 + low;
      ghost var low0 := low;
      low, c := ChopLowBits(c, 6);
      str[2] := 0x80 + low;
      ghost var low1 := low;
      low, c := ChopLowBits(c, 6);
      FourBytes(codePoint, c, low, low1, low0);
      str[1] := 0x80 + low;
      str[0] := 0xF0 + c;
      assert str[..4] == [str[0], str[1], str[2], str[3]];
    }
    ghost var n := if codePoint == 0 then 0 else Width(codePoint);
    assert str[..][..n] == str[..n];
    CTextEnds(str[..], n);
    text := CText(str[..]);
    TextIsUtf8(text, codePoint);
    InvalidTextIsLong(text, codePoint);
  }

  lemma InvalidTextIsLong(text: seq<Byte>, codePoint: UInt32)
    requires text == [] || Encodes(text, codePoint)
    ensures text != InvalidText(codePoint)
  {
  }

  lemma HexAppend(high: nat, d: nat)
    requires high > 0 && d < 16
    ensures FormatHexInt(high * 16 + d) == FormatHexInt(high) + [HexDigit(d)]
  {
    assert (high * 16 + d) / 16 == high && (high * 16 + d) % 16 == d;
  }

  /** How the text for a number that is too large looks. */
  lemma InvalidTextLooks()
    ensures InvalidText(0x20_00AF) == Ascii("(Invalid Unicode 0x2000AF)")
  {
    assert FormatHexInt(0x2) == ['2' as int];
    hide FormatHexInt;
    HexAppend(0x2, 0);
    HexAppend(0x20, 0);
    HexAppend(0x200, 0);
    HexAppend(0x2000, 0xA);
    HexAppend(0x2_000A, 0xF);
    assert FormatHexInt(0x20_00AF) == ['2' as int, '0' as int, '0' as int, '0' as int, 'A' as int, 'F' as int];
  }

  /** The first number beyond Unicode is encoded like any other, to four bytes that are not valid. */
  lemma BeyondUnicodeIsEncoded()
    ensures Encodes([0xF4, 0x90, 0x80, 0x80], 0x11_0000) && !IsUtf8([0xF4, 0x90, 0x80, 0x80])
  {
    ValidIffScalarValue([0xF4, 0x90, 0x80, 0x80], 0x11_0000);
  }

  lemma OneByte(c: nat)
    requires c <= MAX_CODE_POINT_1
    ensures Width(c) == 1 && Encodes([c], c) && (c > 0 ==> 0 !in [c])
  {
  }

  lemma TwoBytes(c: nat, high: nat, low: nat)
    requires MAX_CODE_POINT_1 < c <= MAX_CODE_POINT_2
    requires low < 0x40 && high * 0x40 + low == c
    ensures Width(c) == 2 && high < 0x20
    ensures var s: seq<Byte> := [0xC0 + high, 0x80 + low]; Encodes(s, c) && 0 !in s
  {
  }

  lemma ThreeBytes(c: nat, high: nat, low1: nat, low0: nat)
    requires MAX_CODE_POINT_2 < c <= MAX_CODE_POINT_3
    requires low1 < 0x40 && low0 < 0x40 && (high * 0x40 + low1) * 0x40 + low0 == c
    ensures Width(c) == 3 && high < 0x10
    ensures var s: seq<Byte> := [0xE0 + high, 0x80 + low1, 0x80 + low0]; Encodes(s, c) && 0 !in s
  {
  }

  lemma FourBytes(c: nat, high: nat, low2: nat, low1: nat, low0: nat)
    requires MAX_CODE_POINT_3 < c <= MAX_CODE_POINT_4
    requires low2 < 0x40 && low1 < 0x40 && low0 < 0x40
    requires ((high * 0x40 + low2) * 0x40 + low1) * 0x40 + low0 == c
    ensures Width(c) == 4 && high < 0x08
    ensures var s: seq<Byte> := [0xF0 + high, 0x80 + low2, 0x80 + low1, 0x80 + low0]; Encodes(s, c) && 0 !in s
  {
  }

  lemma EncodingIsUnique(s: seq<Byte>, t: seq<Byte>, c: UInt32)
    requires Encodes(s, c) && Encodes(t, c)
    ensures s == t
  {
  }

  /** The characters of the standard are the shortest encodings of the scalar values, and nothing else. */
  lemma CharsAreScalarValues(s: seq<Byte>)
    ensures IsUtf8Char(s) <==> HasPattern(s) && Encodes(s, Payload(s)) && IsScalarValue(Payload(s))
  {
  }

  /** What the encoder writes is valid exactly for scalar values. */
  lemma ValidIffScalarValue(s: seq<Byte>, c: UInt32)
    requires Encodes(s, c)
    ensures IsUtf8(s) <==> IsScalarValue(c)
  {
    Utf8Step(s);
    EmptyIsUtf8();
    CharsAreScalarValues(s);
    if IsUtf8Char(s) {
      CharHasItsLength(s);
      assert s[..|s|] == s && s[|s|..] == [];
    }
    assert CharLength(s[0]) == |s| ==> s[..CharLength(s[0])] == s;
  }
}
