/** The JSON writers, which append to a document they hold (jsoncpp/json_writer.cpp, jsoncpp/json_tool.h). */
module JsonWriter {
  import opened Common
  import opened JsonValue
  import opened JsonGrammar
  import opened JsonText
  import opened JsonRoundTrip
  import Decimal

  // ---------- scalars ----------

  const UINT_TO_STRING_BUFFER_SIZE := 3 * 8 + 1

  /** Writes the digits backwards from `current`, behind a NUL, and returns where they start. */
  method UintToString(value: nat, buffer: array<char>, current: nat) returns (start: nat)
    requires value <= ULLONG_MAX && 21 <= current <= buffer.Length
    modifies buffer
    ensures current - 21 <= start < current && buffer[current - 1] == '\0'
    ensures buffer[start..current - 1] == Decimal.Numeral(value)
    ensures buffer[..start] == old(buffer[..start]) && buffer[current..] == old(buffer[current..])
  {
    ghost var whole := Decimal.Numeral(value);
    NumeralFits20(value);
    start := current - 1;
    buffer[start] := '\0';
    var rest := value;
    assert buffer[start..current - 1] == [];
    while true
      invariant current - 1 - |whole| <= start < current && buffer[current - 1] == '\0'
      invariant Decimal.Numeral(rest) + buffer[start..current - 1] == whole
      invariant buffer[..start] == old(buffer[..start]) && buffer[current..] == old(buffer[current..])
      decreases rest
    {
      ghost var written := buffer[start..current - 1];
      start := start - 1;
      buffer[start] := '0' + (rest % 10) as char;
      assert buffer[start..current - 1] == [Decimal.DigitChar(rest % 10)] + written;
      rest := rest / 10;
      if rest == 0 {
        break;
      }
    }
  }

  lemma NumeralFits20(n: nat)
    requires n <= ULLONG_MAX
    ensures |Decimal.Numeral(n)| <= 20
  {
    Decimal.Pow10Of19();
    assert Decimal.Pow10(20) == 10 * Decimal.Pow10(19);
    Decimal.NumeralFits(n, 20);
  }

  /** valueToString on LargestInt; the minimum cannot be negated there. */
  method IntToString(value: int) returns (r: string)
    requires LLONG_MIN < value <= LLONG_MAX
    ensures r == Decimal.Spelling(value)
  {
    var buffer := new char[UINT_TO_STRING_BUFFER_SIZE];
    var isNegative := value < 0;
    var current := UintToString(if isNegative then -value else value, buffer, buffer.Length);
    if isNegative {
      current := current - 1;
      buffer[current] := '-';
      assert buffer[current..buffer.Length - 1] == "-" + buffer[current + 1..buffer.Length - 1];
    }
    r := buffer[current..buffer.Length - 1];
  }

  method UintValueToString(value: int) returns (r: string)
    requires 0 <= value <= ULLONG_MAX
    ensures r == Decimal.Spelling(value)
  {
    var buffer := new char[UINT_TO_STRING_BUFFER_SIZE];
    var current := UintToString(value, buffer, buffer.Length);
    r := buffer[current..buffer.Length - 1];
  }

  predicate IsSpecial(c: char) {
    c == '"' || c == '\\' || c == BACKSPACE || c == FORM_FEED || c == '\n' || c == '\r' || c == '\t' || IsControl(c)
  }

  lemma {:induction false} EscapePlain(s: string)
    requires forall i :: 0 <= i < |s| ==> !IsSpecial(s[i])
    ensures Escape(s) == s
  {
    if s != [] {
      EscapePlain(s[1..]);
    }
  }

  lemma {:induction false} EscapeAppend(s: string, c: char)
    ensures Escape(s + [c]) == Escape(s) + EscapeChar(c)
  {
    hide EscapeChar;
    if s != [] {
      EscapeAppend(s[1..], c);
      assert (s + [c])[1..] == s[1..] + [c];
    }
  }

  /** valueToQuotedString: copies a string without special bytes, and escapes byte by byte otherwise. */
  method QuotedString(value: string) returns (result: string)
    requires NulFree(value)
    ensures result == Quoted(value)
  {
    hide EscapeChar;
    if forall i :: 0 <= i < |value| ==> !IsSpecial(value[i]) {
      EscapePlain(value);
      return "\"" + value + "\"";
    }
    result := "\"";
    for c := 0 to |value|
      invariant result == "\"" + Escape(value[..c])
    {
      assert value[..c + 1] == value[..c] + [value[c]];
      EscapeAppend(value[..c], value[c]);
      result := result + EscapeChar(value[c]);
    }
    assert value[..|value|] == value;
    result := result + "\"";
  }

  // ---------- the compact writer ----------

  class FastWriter {
    var document: string

    constructor ()
      ensures document == []
    {
      document := [];
    }

    method Write(root: Value) returns (text: string)
      requires Printable(root)
      modifies this
      ensures text == document == FastText(root) + "\n"
      ensures Parse(text) == Some(Retag(root))
    {
      document := [];
      WriteValue(root);
      assert document == FastText(root);
      document := document + "\n";
      text := document;
      FastRoundTrip(root);
    }

    method WriteValue(value: Value)
      requires Printable(value)
      modifies this
      ensures document == old(document) + FastText(value)
      decreases value
    {
      match value
      case Null =>
        document := document + "null";
      case Int(i) =>
        var digits := IntToString(i);
        document := document + digits;
      case UInt(u) =>
        var digits := UintValueToString(u);
        document := document + digits;
      case Str(s) =>
        var quoted := QuotedString(CStr(s));
        document := document + quoted;
      case Bool(b) =>
        document := document + (if b then "true" else "false");
      case Arr(es) =>
        document := document + "[";
        WriteElements(es);
        document := document + "]";
      case Obj(ms) =>
        document := document + "{";
        WriteMembers(ms);
        document := document + "}";
    }

    method WriteElements(es: seq<Value>)
      requires forall k :: 0 <= k < |es| ==> Printable(es[k])
      modifies this
      ensures document == old(document) + FastElements(es)
      decreases es
    {
      hide FastText, Printable;
      for index := 0 to |es|
        invariant document == old(document) + FastElements(es[..index])
      {
        assert es[..index + 1][..index] == es[..index];
        if index > 0 {
          document := document + ",";
        }
        assert document == old(document) + FastElementsOpen(es[..index]);
        WriteValue(es[index]);
      }
      assert es[..|es|] == es;
    }

    method WriteMembers(ms: seq<Member>)
      requires forall k :: 0 <= k < |ms| ==> NulFree(ms[k].name) && Printable(ms[k].value)
      modifies this
      ensures document == old(document) + FastMembers(ms)
      decreases ms
    {
      hide FastText, Printable, NulFree, Quoted;
      for it := 0 to |ms|
        invariant document == old(document) + FastMembers(ms[..it])
      {
        assert ms[..it + 1][..it] == ms[..it];
        if it > 0 {
          document := document + ",";
        }
        ghost var open := document;
        assert open == old(document) + FastMembersOpen(ms[..it]);
        var name := QuotedString(ms[it].name);
        document := document + name;
        document := document + ":";
        WriteValue(ms[it].value);
        assert document == open + (Quoted(ms[it].name) + ":" + FastText(ms[it].value));
      }
      assert ms[..|ms|] == ms;
    }
  }
}
