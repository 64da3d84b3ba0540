/** What the escapes of a JSON string stand for: the bytes that UTF-8 prescribes (jsoncpp/json_reader.cpp, json_tool.h). */
module JsonUnicode {
  import opened Common
  import opened JsonGrammar

  // ---------- UTF-8 as RFC 3629 has it ----------

  predicate IsContinuation(c: char) { 0x80 <= c as int < 0xC0 }

  /** How many continuation bytes follow a lead byte. */
  function Continuations(lead: char): Option<nat> {
    if lead as int < 0x80 then Some(0)
    else if 0xC0 <= lead as int < 0xE0 then Some(1)
    else if 0xE0 <= lead as int < 0xF0 then Some(2)
    else if 0xF0 <= lead as int < 0xF8 then Some(3)
    else None
  }

  /** The payload bits of a lead byte. */
  function LeadBits(lead: char, n: nat): nat {
    if n == 0 then lead as int % 0x80
    else if n == 1 then lead as int % 0x20
    else if n == 2 then lead as int % 0x10
    else lead as int % 0x08
  }

  /** Six more bits for each continuation byte. */
  function Gather(bits: nat, s: string): Option<nat>
    decreases |s|
  {
    if s == [] then Some(bits)
    else if !IsContinuation(s[0]) then None
    else Gather(bits * 0x40 + s[0] as int % 0x40, s[1..])
  }

  /** The least code point that needs n continuation bytes. */
  function Shortest(n: nat): nat {
    if n == 0 then 0 else if n == 1 then 0x80 else if n == 2 then 0x800 else 0x1_0000
  }

  /** The code point at the start of s and the bytes behind it; none for overlong forms. */
  function DecodeUtf8(s: string): Option<(nat, string)> {
    if s == [] || Continuations(s[0]).None? then None
    else
      var n := Continuations(s[0]).value;
      if |s| <= n then None
      else match Gather(LeadBits(s[0], n), s[1..1 + n])
        case None => None
        case Some(cp) => if Shortest(n) <= cp <= 0x10_FFFF then Some((cp, s[1 + n..])) else None
  }

  lemma GatherMore(bits: nat, s: string, a: nat)
    requires a < 0x40 && s != [] && s[0] == (0x80 + a) as char
    ensures Gather(bits, s) == Gather(bits * 0x40 + a, s[1..])
  {
  }

  /** A lead byte that matches the length, and continuation bytes that gather a code point needing that length. */
  lemma DecodesTo(e: string, n: nat, cp: nat, rest: string)
    requires |e| == n + 1 && Continuations(e[0]) == Some(n)
    requires Gather(LeadBits(e[0], n), e[1..]) == Some(cp) && Shortest(n) <= cp <= 0x10_FFFF
    ensures DecodeUtf8(e + rest) == Some((cp, rest))
  {
    hide Gather, Continuations, LeadBits;
    var s := e + rest;
    assert s[0] == e[0] && s[1..1 + n] == e[1..] && s[1 + n..] == rest;
  }

  /** The writer's bytes are the one well-formed encoding of the code point. */
  lemma Utf8Decodes(cp: nat, rest: string)
    requires cp <= 0x10_FFFF
    ensures DecodeUtf8(CodePointToUtf8(cp) + rest) == Some((cp, rest))
  {
    if cp < 0x80 {
      DecodesTo([cp as char], 0, cp, rest);
    } else if cp < 0x800 {
      TwoBytes(cp, rest);
    } else if cp < 0x1_0000 {
      ThreeBytes(cp, rest);
    } else {
      FourBytes(cp, rest);
    }
  }

  lemma TwoBytes(cp: nat, rest: string)
    requires 0x80 <= cp < 0x800
    ensures DecodeUtf8(CodePointToUtf8(cp) + rest) == Some((cp, rest))
  {
    hide DecodeUtf8;
    var e := CodePointToUtf8(cp);
    GatherMore(cp / 0x40, e[1..], cp % 0x40);
    DecodesTo(e, 1, cp, rest);
  }

  lemma ThreeBytes(cp: nat, rest: string)
    requires 0x800 <= cp < 0x1_0000
    ensures DecodeUtf8(CodePointToUtf8(cp) + rest) == Some((cp, rest))
  {
    hide DecodeUtf8;
    var e := CodePointToUtf8(cp);
    GatherMore(cp / 0x1000, e[1..], cp / 0x40 % 0x40);
    GatherMore(cp / 0x40, e[1..][1..], cp % 0x40);
    assert e[1..][1..][1..] == [];
    DecodesTo(e, 2, cp, rest);
  }

  lemma FourBytes(cp: nat, rest: string)
    requires 0x1_0000 <= cp <= 0x10_FFFF
    ensures DecodeUtf8(CodePointToUtf8(cp) + rest) == Some((cp, rest))
  {
    hide DecodeUtf8;
    var e := CodePointToUtf8(cp);
    FourDigitsOf(cp);
    GatherMore(cp / 0x4_0000, e[1..], cp / 0x1000 % 0x40);
    GatherMore(cp / 0x1000, e[1..][1..], cp / 0x40 % 0x40);
    GatherMore(cp / 0x40, e[1..][1..][1..], cp % 0x40);
    assert e[1..][1..][1..][1..] == [];
    DecodesTo(e, 3, cp, rest);
  }

  /** Its digits to the base 64. */
  lemma FourDigitsOf(cp: nat)
    requires cp <= 0x10_FFFF
    ensures cp / 0x4_0000 < 8 && cp / 0x4_0000 * 0x40 + cp / 0x1000 % 0x40 == cp / 0x1000
    ensures cp / 0x1000 * 0x40 + cp / 0x40 % 0x40 == cp / 0x40
  {
  }

  // ---------- escapes ----------

  const LOWER_HEX := "0123456789abcdef"
  const UPPER_HEX := "0123456789ABCDEF"

  /** A hexadecimal digit of value d, in either case. */
  predicate IsHex(c: char, d: nat) { d < 16 && (c == LOWER_HEX[d] || c == UPPER_HEX[d]) }

  lemma HexDigitExactly(c: char, d: nat)
    ensures HexDigit(c) == Some(d) <==> IsHex(c, d)
  {
  }

  /** Four digits that spell u. */
  predicate Spells(h: string, u: nat) {
    && |h| == 4 && u < 0x1_0000
    && IsHex(h[0], u / 0x1000) && IsHex(h[1], u / 0x100 % 0x10) && IsHex(h[2], u / 0x10 % 0x10) && IsHex(h[3], u % 0x10)
  }

  lemma FourDigits(h: string, u: nat, rest: string)
    requires Spells(h, u)
    ensures |h| == 4 && DecodeUnicodeEscape(h + rest) == CodePoint(u, rest)
  {
    hide IsHex, HexDigit;
    var s := h + rest;
    HexDigitExactly(h[0], u / 0x1000);
    HexDigitExactly(h[1], u / 0x100 % 0x10);
    HexDigitExactly(h[2], u / 0x10 % 0x10);
    HexDigitExactly(h[3], u % 0x10);
    assert HexNumber(s, 0) == Some(0);
    assert HexNumber(s, 1) == Some(u / 0x1000);
    assert HexNumber(s, 2) == Some(u / 0x100);
    assert HexNumber(s, 3) == Some(u / 0x10);
    assert HexNumber(s, 4) == Some(u);
    assert s[4..] == rest;
  }

  predicate IsHighSurrogate(u: nat) { 0xD800 <= u < 0xDC00 }

  predicate IsLowSurrogate(u: nat) { 0xDC00 <= u < 0xE000 }

  /** An escape of four digits stands for the UTF-8 bytes of that code point. */
  lemma EscapeOfCodePoint(h: string, u: nat, rest: string)
    requires Spells(h, u) && !IsHighSurrogate(u)
    ensures Unescape("\\u" + h + rest) == Prepend(CodePointToUtf8(u), Unescape(rest))
  {
    hide Spells, DecodeUnicodeEscape, CodePointToUtf8;
    var s := "\\u" + h + rest;
    assert s[2..] == h + rest;
    FourDigits(h, u, rest);
  }

  /** Two escapes of a surrogate pair stand for the bytes of the code point that UTF-16 encodes so. */
  lemma EscapeOfPair(h: string, high: nat, l: string, low: nat, rest: string)
    requires Spells(h, high) && IsHighSurrogate(high) && Spells(l, low) && IsLowSurrogate(low)
    ensures Unescape("\\u" + h + "\\u" + l + rest)
      == Prepend(CodePointToUtf8(0x1_0000 + (high - 0xD800) * 0x400 + (low - 0xDC00)), Unescape(rest))
  {
    hide Spells, DecodeUnicodeEscape, CodePointToUtf8;
    var more := "\\u" + l + rest;
    var s := "\\u" + h + "\\u" + l + rest;
    PairParts(h, l, rest);
    FourDigits(h, high, more);
    FourDigits(l, low, rest);
    assert high % 0x400 == high - 0xD800 && low % 0x400 == low - 0xDC00;
    PairDecodes(h + more, high, more, low, rest);
  }

  lemma PairDecodes(s: string, high: nat, more: string, low: nat, rest: string)
    requires DecodeUnicodeEscape(s) == CodePoint(high, more) && IsHighSurrogate(high)
    requires |more| >= 6 && more[0] == '\\' && more[1] == 'u' && DecodeUnicodeEscape(more[2..]) == CodePoint(low, rest)
    ensures DecodeCodePoint(s) == CodePoint(0x1_0000 + high % 0x400 * 0x400 + low % 0x400, rest)
  {
    hide DecodeUnicodeEscape;
  }

  lemma PairParts(h: string, l: string, rest: string)
    ensures var more := "\\u" + l + rest;
      && more[0] == '\\' && more[1] == 'u' && more[2..] == l + rest
      && ("\\u" + h + "\\u" + l + rest)[..2] == "\\u" && ("\\u" + h + "\\u" + l + rest)[2..] == h + more
  {
  }

  /** A high surrogate that no other escape follows fails the string. */
  lemma LoneHighSurrogate(h: string, high: nat, rest: string)
    requires Spells(h, high) && IsHighSurrogate(high)
    requires |rest| < 6 || rest[0] != '\\' || rest[1] != 'u'
    ensures Unescape("\\u" + h + rest) == None
  {
    hide *;
    var s := "\\u" + h + rest;
    assert s[2..] == h + rest && s[..2] == "\\u";
    FourDigits(h, high, rest);
    LoneFails(h + rest, high, rest);
    FailedEscape(s);
  }

  lemma LoneFails(s: string, high: nat, rest: string)
    requires DecodeUnicodeEscape(s) == CodePoint(high, rest) && IsHighSurrogate(high)
    requires |rest| < 6 || rest[0] != '\\' || rest[1] != 'u'
    ensures DecodeCodePoint(s) == BadCodePoint
  {
    hide DecodeUnicodeEscape;
  }

  lemma FailedEscape(s: string)
    requires |s| >= 2 && s[..2] == "\\u" && DecodeCodePoint(s[2..]) == BadCodePoint
    ensures Unescape(s) == None
  {
    hide DecodeCodePoint, CodePointToUtf8;
    assert s[0] == s[..2][0] && s[1] == s[..2][1];
  }

  const ESCAPED := "\"\\/bfnrt"
  const MEANINGS := ['"', '\\', '/', 8 as char, 12 as char, 10 as char, 13 as char, 9 as char]

  /** The two-byte escapes of section 7 of RFC 8259, each with the byte it stands for. */
  lemma ShortEscape(i: nat, rest: string)
    requires i < |ESCAPED|
    ensures |MEANINGS| == |ESCAPED| && Unescape(['\\', ESCAPED[i]] + rest) == Prepend([MEANINGS[i]], Unescape(rest))
  {
    hide DecodeCodePoint, CodePointToUtf8;
    assert (['\\', ESCAPED[i]] + rest)[2..] == rest;
  }

  /** Every other escape fails the string. */
  lemma BadEscape(c: char, rest: string)
    requires c !in ESCAPED && c != 'u'
    ensures Unescape(['\\', c] + rest) == None
  {
    hide DecodeCodePoint, CodePointToUtf8;
    assert ESCAPED[0] == '"' && ESCAPED[1] == '\\' && ESCAPED[2] == '/' && ESCAPED[3] == 'b' && ESCAPED[4] == 'f'
      && ESCAPED[5] == 'n' && ESCAPED[6] == 'r' && ESCAPED[7] == 't';
  }

  /** A byte that is neither quote nor backslash stands for itself. */
  lemma PlainByte(c: char, rest: string)
    requires c != '"' && c != '\\'
    ensures Unescape([c] + rest) == Prepend([c], Unescape(rest))
  {
    hide DecodeCodePoint, CodePointToUtf8;
    assert ([c] + rest)[1..] == rest;
  }
}
