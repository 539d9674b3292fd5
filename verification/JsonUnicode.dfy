/** Escaped code units and surrogate pairs against a reader of UTF-8 (RFC 3629; common/json/parson.c). */
module JsonUnicode {
  import opened Basics
  import opened Json

  // ----- UTF-8 -----

  predicate InRange(c: char, low: int, high: int) {
    low <= c as int <= high
  }

  /** A byte that continues a sequence carries six bits. */
  predicate IsContinuation(c: char) {
    InRange(c, 0x80, 0xBF)
  }

  function Bits(c: char): int {
    c as int - 0x80
  }

  datatype Decoded = Decoded(codePoint: nat, length: nat)

  /** One character of UTF-8 by the ranges of its lead byte and of the bytes that continue it. */
  function ReadUtf8(s: string): Option<Decoded> {
    if s == [] then None
    else if InRange(s[0], 0, 0x7F) then Some(Decoded(s[0] as int, 1))
    else if InRange(s[0], 0xC2, 0xDF) then
      if |s| >= 2 && IsContinuation(s[1]) then Some(Decoded((s[0] as int - 0xC0) * 64 + Bits(s[1]), 2)) else None
    else if InRange(s[0], 0xE0, 0xEF) then
      if |s| >= 3 && IsContinuation(s[1]) && IsContinuation(s[2])
         && (s[0] as int == 0xE0 ==> s[1] as int >= 0xA0) && (s[0] as int == 0xED ==> s[1] as int <= 0x9F)
      then Some(Decoded((s[0] as int - 0xE0) * 4096 + Bits(s[1]) * 64 + Bits(s[2]), 3))
      else None
    else if InRange(s[0], 0xF0, 0xF4) then
      if |s| >= 4 && IsContinuation(s[1]) && IsContinuation(s[2]) && IsContinuation(s[3])
         && (s[0] as int == 0xF0 ==> s[1] as int >= 0x90) && (s[0] as int == 0xF4 ==> s[1] as int <= 0x8F)
      then Some(Decoded((s[0] as int - 0xF0) * 262144 + Bits(s[1]) * 4096 + Bits(s[2]) * 64 + Bits(s[3]), 4))
      else None
    else None
  }

  predicate IsSurrogate(cp: int) {
    0xD800 <= cp <= 0xDFFF
  }

  function Utf8Length(cp: nat): nat {
    if cp < 0x80 then 1 else if cp < 0x800 then 2 else if cp < 0x1_0000 then 3 else 4
  }

  /** Dividing by 64 step by step leaves digits to the base 64. */
  lemma Base64Digits(cp: nat)
    ensures cp == cp / 64 * 64 + cp % 64
    ensures cp / 64 == cp / 4096 * 64 + cp / 64 % 64
    ensures cp / 4096 == cp / 262144 * 64 + cp / 4096 % 64
  {
  }

  lemma ReadsTwo(cp: nat)
    requires 0x80 <= cp < 0x800
    ensures |Utf8(cp)| == 2 && ReadUtf8(Utf8(cp)) == Some(Decoded(cp, 2))
  {
    Base64Digits(cp);
    assert 2 <= cp / 64 <= 31;
  }

  lemma ReadsThree(cp: nat)
    requires 0x800 <= cp < 0x1_0000 && !IsSurrogate(cp)
    ensures |Utf8(cp)| == 3 && ReadUtf8(Utf8(cp)) == Some(Decoded(cp, 3))
  {
    Base64Digits(cp);
    var high, middle, low := cp / 4096, cp / 64 % 64, cp % 64;
    assert cp == high * 4096 + middle * 64 + low;
    var s := Utf8(cp);
    assert s == [(0xE0 + high) as char, (0x80 + middle) as char, (0x80 + low) as char];
    hide Utf8;
    assert s[0] as int == 0xE0 + high && s[1] as int == 0x80 + middle && s[2] as int == 0x80 + low;
  }

  lemma ReadsFour(cp: nat)
    requires 0x1_0000 <= cp < 0x11_0000
    ensures |Utf8(cp)| == 4 && ReadUtf8(Utf8(cp)) == Some(Decoded(cp, 4))
  {
    Base64Digits(cp);
    var top, high, middle, low := cp / 262144, cp / 4096 % 64, cp / 64 % 64, cp % 64;
    assert cp == top * 262144 + high * 4096 + middle * 64 + low;
    var s := Utf8(cp);
    assert s == [(0xF0 + top) as char, (0x80 + high) as char, (0x80 + middle) as char, (0x80 + low) as char];
    hide Utf8;
    assert s[0] as int == 0xF0 + top && s[1] as int == 0x80 + high;
    assert s[2] as int == 0x80 + middle && s[3] as int == 0x80 + low;
  }

  /** The bytes of a character are read as that character. */
  lemma Utf8Reads(cp: nat)
    requires cp < 0x11_0000 && !IsSurrogate(cp)
    ensures |Utf8(cp)| == Utf8Length(cp) && ReadUtf8(Utf8(cp)) == Some(Decoded(cp, Utf8Length(cp)))
  {
    if 0x80 <= cp < 0x800 {
      ReadsTwo(cp);
    } else if 0x800 <= cp < 0x1_0000 {
      ReadsThree(cp);
    } else if 0x1_0000 <= cp {
      ReadsFour(cp);
    }
  }

  // ----- hexadecimal digits -----

  /** Digits in both cases have their values, and nothing else has one. */
  lemma HexValues(n: nat)
    requires n < 16
    ensures HexValue("0123456789abcdef"[n]) == n && HexValue("0123456789ABCDEF"[n]) == n
  {
  }

  lemma HexValueExactly(c: char)
    ensures HexValue(c) >= 0 <==> '0' <= c <= '9' || 'a' <= c <= 'f' || 'A' <= c <= 'F'
    ensures -1 <= HexValue(c) < 16
  {
  }

  predicate IsHex4(digits: string) {
    |digits| == 4 && forall i :: 0 <= i < 4 ==> HexValue(digits[i]) >= 0
  }

  function Value4(digits: string): (n: int)
    requires |digits| == 4
  {
    ((HexValue(digits[0]) * 16 + HexValue(digits[1])) * 16 + HexValue(digits[2])) * 16 + HexValue(digits[3])
  }

  lemma Hex4Reads(digits: string, rest: string)
    requires IsHex4(digits)
    ensures 0 <= Value4(digits) < 65536 && Hex4(digits + rest) == Some(Value4(digits))
  {
    var s := digits + rest;
    assert s[0] == digits[0] && s[1] == digits[1] && s[2] == digits[2] && s[3] == digits[3];
    forall i | 0 <= i < 4 ensures 0 <= HexValue(digits[i]) < 16 {
      HexValueExactly(digits[i]);
    }
    hide HexValue;
  }

  // ----- escapes -----

  function EscapeOf(digits: string): string {
    "\\u" + digits
  }

  /** An escaped code unit that is no surrogate leaves the bytes of its character, one to three by its range. */
  lemma CodeUnit(digits: string, rest: string)
    requires IsHex4(digits) && Value4(digits) >= 0 && !IsSurrogate(Value4(digits))
    ensures var p, cp := NextChar(EscapeOf(digits) + rest), Value4(digits);
            && p.Done? && p.rest == rest && |p.result| == Utf8Length(cp) <= 3
            && ReadUtf8(p.result) == Some(Decoded(cp, Utf8Length(cp)))
  {
    Hex4Reads(digits, rest);
    Utf8Reads(Value4(digits));
    var s := EscapeOf(digits) + rest;
    assert s[2..] == digits + rest && (digits + rest)[4..] == rest;
    hide Hex4, Utf8, ReadUtf8, Value4;
  }

  lemma PairText(lead: string, trail: string, rest: string)
    requires |lead| == |trail| == 4
    ensures var s, t := EscapeOf(lead) + EscapeOf(trail) + rest, lead + (EscapeOf(trail) + rest);
            && |s| >= 2 && s[0] == '\\' && s[1] == 'u' && s[2..] == t && |t| >= 10
            && t[4] == '\\' && t[5] == 'u' && t[6..] == trail + rest && t[10..] == rest
  {
  }

  /** A lead and a trail surrogate leave the four bytes of one character. */
  lemma SurrogatePair(lead: string, trail: string, rest: string)
    requires IsHex4(lead) && IsHex4(trail)
    requires 0xD800 <= Value4(lead) <= 0xDBFF && 0xDC00 <= Value4(trail) <= 0xDFFF
    ensures var p := NextChar(EscapeOf(lead) + EscapeOf(trail) + rest);
            var cp := 0x1_0000 + (Value4(lead) - 0xD800) * 1024 + (Value4(trail) - 0xDC00);
            && p.Done? && p.rest == rest && |p.result| == 4
            && ReadUtf8(p.result) == Some(Decoded(cp, 4))
  {
    var afterLead := EscapeOf(trail) + rest;
    PairText(lead, trail, rest);
    Hex4Reads(lead, afterLead);
    Hex4Reads(trail, rest);
    Utf8Reads(0x1_0000 + (Value4(lead) - 0xD800) * 1024 + (Value4(trail) - 0xDC00));
    hide Hex4, Utf8, ReadUtf8, Value4, IsHex4, EscapeOf, HexValue;
  }

  /** A trail surrogate alone, or a lead surrogate that no escaped trail surrogate follows, is refused. */
  lemma LoneSurrogate(digits: string, rest: string)
    requires IsHex4(digits) && IsSurrogate(Value4(digits))
    requires Value4(digits) >= 0xDC00
             || !(|rest| >= 6 && rest[0] == '\\' && rest[1] == 'u' && IsHex4(rest[2..6])
                  && 0xDC00 <= Value4(rest[2..6]) <= 0xDFFF)
    ensures NextChar(EscapeOf(digits) + rest) == Fail
  {
    Hex4Reads(digits, rest);
    var s := EscapeOf(digits) + rest;
    var t := digits + rest;
    assert s[2..] == t;
    if Value4(digits) < 0xDC00 && |rest| >= 6 && rest[0] == '\\' && rest[1] == 'u' {
      assert t[4] == rest[0] && t[5] == rest[1] && t[6..] == rest[2..];
      if Hex4(rest[2..]).Some? {
        var d := rest[2..6];
        assert d[0] == rest[2..][0] && d[1] == rest[2..][1] && d[2] == rest[2..][2] && d[3] == rest[2..][3];
        assert IsHex4(d) && rest[2..] == d + rest[6..];
        Hex4Reads(d, rest[6..]);
      }
    } else if Value4(digits) < 0xDC00 {
      assert |t| >= 6 ==> t[4] == rest[0] && t[5] == rest[1];
    }
  }
}
