/** The text the writers produce for strings, integers and compact documents (jsoncpp/json_writer.cpp). */
module JsonText {
  import opened Common
  import opened JsonValue
  import Decimal
  import opened JsonGrammar

  predicate IsControl(c: char) { 0 < c as int <= 0x1F }

  function HexChar(d: int): (c: char)
    requires 0 <= d < 16
    ensures HexDigit(c) == Some(d)
  {
    if d < 10 then '0' + d as char else 'A' + (d - 10) as char
  }

  function EscapeChar(c: char): string {
    if c == '"' then "\\\""
    else if c == '\\' then "\\\\"
    else if c == BACKSPACE then "\\b"
    else if c == FORM_FEED then "\\f"
    else if c == '\n' then "\\n"
    else if c == '\r' then "\\r"
    else if c == '\t' then "\\t"
    else if IsControl(c) then "\\u00" + [HexChar(c as int / 16), HexChar(c as int % 16)]
    else [c]
  }

  function Escape(s: string): string {
    if s == [] then [] else EscapeChar(s[0]) + Escape(s[1..])
  }

  /** valueToQuotedString */
  function Quoted(s: string): string { "\"" + Escape(s) + "\"" }

  // ---------- reading back what was quoted ----------

  /** The scanner passes over an escaped byte without seeing a closing quote. */
  lemma ScanEscapedChar(c: char, s: string)
    ensures StringLength(EscapeChar(c) + s) ==
      match StringLength(s) case None => None case Some(n) => Some(|EscapeChar(c)| + n)
  {
    hide EscapeChar, StringLength;
    var e := EscapeChar(c);
    EscapeShape(c);
    if |e| == 1 {
      ScanPlain(e, s);
    } else {
      var more := e[2..];
      ScanEscape(e[..2], more + s);
      ScanPlain(more, s);
      CutEscape(e, s);
    }
  }

  lemma CutEscape(e: string, s: string)
    requires |e| >= 2
    ensures e[..2] + (e[2..] + s) == e + s
  {
  }

  /** An escaped byte is itself, or a backslash with one byte and ordinary bytes behind it. */
  lemma EscapeShape(c: char)
    ensures var e := EscapeChar(c);
      (|e| == 1 && e[0] != '"' && e[0] != '\\')
      || (|e| >= 2 && e[0] == '\\' && forall i :: 2 <= i < |e| ==> e[i] != '"' && e[i] != '\\')
  {
  }

  lemma ScanEscape(e: string, s: string)
    requires |e| == 2 && e[0] == '\\'
    ensures StringLength(e + s) == match StringLength(s) case None => None case Some(n) => Some(2 + n)
  {
    assert (e + s)[2..] == s;
  }

  /** Nor in a run of ordinary bytes. */
  lemma {:induction false} ScanPlain(p: string, s: string)
    requires forall i :: 0 <= i < |p| ==> p[i] != '"' && p[i] != '\\'
    ensures StringLength(p + s) == match StringLength(s) case None => None case Some(n) => Some(|p| + n)
  {
    if p == [] {
      assert p + s == s;
    } else {
      ScanPlain(p[1..], s);
      assert (p + s)[1..] == p[1..] + s;
    }
  }

  lemma {:induction false} ScanQuoted(s: string, rest: string)
    ensures StringLength(Escape(s) + "\"" + rest) == Some(|Escape(s)| + 1)
  {
    hide EscapeChar, StringLength;
    if s == [] {
      QuoteEnds(rest);
    } else {
      ScanQuoted(s[1..], rest);
      var tail := Escape(s[1..]) + "\"" + rest;
      ScanEscapedChar(s[0], tail);
      EscapeGroups(EscapeChar(s[0]), Escape(s[1..]), rest);
    }
  }

  lemma QuoteEnds(rest: string)
    ensures StringLength([] + "\"" + rest) == Some(1)
  {
  }

  lemma EscapeGroups(first: string, more: string, rest: string)
    ensures first + more + "\"" + rest == first + (more + "\"" + rest)
  {
  }

  /** A quoted string is one token, whatever follows. */
  lemma TokenOfQuoted(s: string, rest: string)
    ensures ReadToken(Quoted(s) + rest) == Token(String, Quoted(s), rest)
  {
    hide StringLength, Escape;
    var all := Quoted(s) + rest;
    ScanQuoted(s, rest);
    assert all[1..] == Escape(s) + "\"" + rest;
    assert SkipSpaces(all) == all;
    assert all[..|Quoted(s)|] == Quoted(s) && all[|Quoted(s)|..] == rest;
  }

  lemma ControlEscape(c: char, s: string)
    requires IsControl(c)
    ensures DecodeCodePoint(['0', '0', HexChar(c as int / 16), HexChar(c as int % 16)] + s) == CodePoint(c as int, s)
  {
    var t := ['0', '0', HexChar(c as int / 16), HexChar(c as int % 16)] + s;
    assert HexNumber(t, 0) == Some(0);
    assert HexNumber(t, 1) == Some(0);
    assert HexNumber(t, 2) == Some(0);
    assert HexNumber(t, 3) == Some(c as int / 16);
    assert HexNumber(t, 4) == Some(c as int);
    assert t[4..] == s;
  }

  lemma UnescapeControl(c: char, s: string)
    requires IsControl(c)
    ensures Unescape("\\u00" + [HexChar(c as int / 16), HexChar(c as int % 16)] + s) == Prepend([c], Unescape(s))
  {
    hide DecodeCodePoint, HexChar;
    var h, l := HexChar(c as int / 16), HexChar(c as int % 16);
    var t := "\\u00" + [h, l] + s;
    assert t[2..] == ['0', '0', h, l] + s;
    ControlEscape(c, s);
    assert CodePointToUtf8(c as int) == [c];
  }

  lemma PairEscape(c: char)
    requires |EscapeChar(c)| == 2
    ensures EscapeChar(c)[0] == '\\' && EscapeChar(c)[1] != 'u' && Unescaped(EscapeChar(c)[1]) == Some(c)
  {
  }

  lemma UnescapePair(c: char, e: char, s: string)
    requires e != 'u' && Unescaped(e) == Some(c)
    ensures Unescape(['\\', e] + s) == Prepend([c], Unescape(s))
  {
    hide Unescaped, DecodeCodePoint, CodePointToUtf8;
    var t := ['\\', e] + s;
    assert t[2..] == s;
  }

  lemma UnescapePlain(c: char, s: string)
    requires c != '"' && c != '\\'
    ensures Unescape([c] + s) == Prepend([c], Unescape(s))
  {
    hide Unescaped, DecodeCodePoint, CodePointToUtf8;
    assert ([c] + s)[1..] == s;
  }

  lemma UnescapeChar(c: char, s: string)
    requires c != '\0'
    ensures Unescape(EscapeChar(c) + s) == Prepend([c], Unescape(s))
  {
    hide Unescape, HexChar, Prepend, Unescaped;
    var e := EscapeChar(c);
    if |e| == 1 {
      UnescapePlain(c, s);
    } else if |e| == 2 {
      assert e == ['\\', e[1]];
      PairEscape(c);
      UnescapePair(c, e[1], s);
    } else {
      UnescapeControl(c, s);
    }
  }

  /** Unescaping undoes escaping on every string without NUL. */
  lemma {:induction false} UnescapeEscape(s: string)
    requires NulFree(s)
    ensures Unescape(Escape(s)) == Some(s)
  {
    hide EscapeChar;
    if s != [] {
      UnescapeEscape(s[1..]);
      UnescapeChar(s[0], Escape(s[1..]));
      assert [s[0]] + s[1..] == s;
    }
  }

  lemma DecodeQuoted(s: string)
    requires NulFree(s)
    ensures DecodeString(Quoted(s)) == Some(s)
  {
    assert Quoted(s)[1..|Quoted(s)| - 1] == Escape(s);
    UnescapeEscape(s);
  }

  // ---------- reading back integers ----------

  /** What must not follow a number. */
  predicate Stop(rest: string) {
    rest == [] || !('0' <= rest[0] <= '9' || rest[0] == '+' || rest[0] == '-' || rest[0] == '.' || rest[0] == 'e' || rest[0] == 'E')
  }

  lemma {:induction false} NumberRun(p: string, rest: string)
    requires (forall i :: 0 <= i < |p| ==> IsNumberChar(p[i])) && Stop(rest)
    ensures NumberLength(p + rest) == |p|
  {
    if p == [] {
      assert p + rest == rest;
    } else {
      NumberRun(p[1..], rest);
      assert (p + rest)[1..] == p[1..] + rest;
    }
  }

  lemma TokenOfNumber(text: string, rest: string)
    requires IsNumber(text) && Stop(rest)
    ensures ReadToken(text + rest) == Token(Number, text, rest)
  {
    var s := text + rest;
    assert s[1..] == text[1..] + rest;
    NumberRun(text[1..], rest);
    assert s[..|text|] == text && s[|text|..] == rest;
    assert SkipSpaces(s) == s;
  }

  /** The decoded spelling of an integer is that integer, over the whole 64-bit range but the minimum. */
  lemma DecodeSpelling(n: int)
    requires LLONG_MIN < n <= ULLONG_MAX
    ensures IsNumber(Decimal.Spelling(n))
    ensures DecodeNumber(Decimal.Spelling(n)) == Some(Tagged(n))
  {
    hide Decimal.Numeral, Decimal.Value;
    var text := Decimal.Spelling(n);
    Decimal.SpellingShape(n);
    if n < 0 {
      assert forall i :: 1 <= i < |text| ==> text[i] == text[1..][i - 1] && Decimal.IsDigit(text[1..][i - 1]);
    } else {
      assert text[0..] == text;
      assert forall i :: 0 <= i < |text| ==> Decimal.IsDigit(text[i]);
    }
  }

  // ---------- the compact document ----------

  /** FastWriter without the final newline. */
  function FastText(v: Value): string
    decreases v, 0
  {
    match v
    case Null => "null"
    case Bool(b) => if b then "true" else "false"
    case Int(i) => Decimal.Spelling(i)
    case UInt(u) => Decimal.Spelling(u)
    case Real(text) => text
    case Str(s) => Quoted(CStr(s))
    case Arr(es) => "[" + FastElements(es) + "]"
    case Obj(ms) => "{" + FastMembers(ms) + "}"
  }

  function FastElements(es: seq<Value>): string
    decreases es, 1
  {
    if es == [] then [] else FastElementsOpen(es[..|es| - 1]) + FastText(es[|es| - 1])
  }

  /** Elements that more elements follow: each has its comma. */
  function FastElementsOpen(es: seq<Value>): string
    decreases es, 2
  {
    if es == [] then [] else FastElements(es) + ","
  }

  function FastMembers(ms: seq<Member>): string
    decreases ms, 1
  {
    if ms == [] then []
    else
      var m := ms[|ms| - 1];
      FastMembersOpen(ms[..|ms| - 1]) + (Quoted(m.name) + ":" + FastText(m.value))
  }

  function FastMembersOpen(ms: seq<Member>): string
    decreases ms, 2
  {
    if ms == [] then [] else FastMembers(ms) + ","
  }
}
