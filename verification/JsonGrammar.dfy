/** What Json::Reader reads from the bytes ahead, as functions of those bytes (jsoncpp/json_reader.cpp). */
module JsonGrammar {
  import opened Common
  import opened JsonValue
  import Decimal

  // ---------- tokens ----------

  datatype Kind =
    | ObjectBegin | ObjectEnd | ArrayBegin | ArrayEnd | String | Number | True | False | NullWord
    | ArraySeparator | MemberSeparator | Comment | EndOfStream | Error

  /** A token, its bytes, and the bytes after it. */
  datatype Token = Token(kind: Kind, text: string, rest: string)

  predicate WellFormed(t: Token) {
    && (t.kind != EndOfStream ==> t.text != [])
    && (t.kind == String ==> |t.text| >= 2 && t.text[|t.text| - 1] == '"')
    && (t.kind == Number ==> IsNumber(t.text))
  }

  predicate IsSpace(c: char) { c == ' ' || c == '\t' || c == '\r' || c == '\n' }

  predicate AllSpaces(s: string) { forall i :: 0 <= i < |s| ==> IsSpace(s[i]) }

  function SkipSpaces(s: string): (r: string)
    ensures |r| <= |s| && (r != [] ==> !IsSpace(r[0]))
  {
    if s != [] && IsSpace(s[0]) then SkipSpaces(s[1..]) else s
  }

  predicate IsNumberChar(c: char) {
    '0' <= c <= '9' || c == '.' || c == 'e' || c == 'E' || c == '+' || c == '-'
  }

  /** Length of the longest run of number characters. */
  function NumberLength(s: string): (n: nat)
    ensures n <= |s| && forall i :: 0 <= i < n ==> IsNumberChar(s[i])
  {
    if s != [] && IsNumberChar(s[0]) then 1 + NumberLength(s[1..]) else 0
  }

  /** Bytes up to and with the closing quote; a backslash hides the byte after it. */
  function StringLength(s: string): (n: Option<nat>)
    ensures n.Some? ==> 1 <= n.value <= |s| && s[n.value - 1] == '"'
  {
    if s == [] then None
    else if s[0] == '"' then Some(1)
    else
      var skip := if s[0] == '\\' then 2 else 1;
      if skip > |s| then None
      else match StringLength(s[skip..])
        case None => None
        case Some(n) => Some(skip + n)
  }

  function OneByte(kind: Kind, s: string): Token
    requires s != []
  {
    Token(kind, s[..1], s[1..])
  }

  function Word(kind: Kind, word: string, s: string): Token
    requires s != []
  {
    if word <= s then Token(kind, word, s[|word|..]) else OneByte(Error, s)
  }

  /** Bytes up to and with the star and slash that end a comment. */
  function BlockLength(s: string): (n: Option<nat>)
    ensures n.Some? ==> 2 <= n.value <= |s|
  {
    if |s| < 2 then None
    else if s[0] == '*' && s[1] == '/' then Some(2)
    else match BlockLength(s[1..])
      case None => None
      case Some(n) => Some(1 + n)
  }

  predicate IsLineEnd(c: char) { c == '\r' || c == '\n' }

  /** Bytes up to and with the first line end, or all. */
  function RestOfLine(s: string): (n: nat)
    ensures n <= |s|
  {
    if s == [] then 0 else if IsLineEnd(s[0]) then 1 else 1 + RestOfLine(s[1..])
  }

  /** readComment: a second byte that is neither a star nor a slash is consumed as well. */
  function ReadComment(s: string): (t: Token)
    requires s != [] && s[0] == '/'
    ensures t.kind == Comment || t.kind == Error
    ensures |t.rest| < |s| && t.text != []
  {
    if |s| >= 2 && s[1] == '*' then
      match BlockLength(s[2..])
      case None => Token(Error, s, [])
      case Some(n) => Token(Comment, s[..2 + n], s[2 + n..])
    else if |s| >= 2 && s[1] == '/' then
      var n := 2 + RestOfLine(s[2..]);
      Token(Comment, s[..n], s[n..])
    else
      var n := if |s| >= 2 then 2 else 1;
      Token(Error, s[..n], s[n..])
  }

  /** readToken */
  function ReadToken(s0: string): (t: Token)
    ensures |t.rest| <= |s0| && (t.kind != EndOfStream ==> |t.rest| < |s0|)
    ensures WellFormed(t)
  {
    var s := SkipSpaces(s0);
    if s == [] then Token(EndOfStream, [], [])
    else
      var c := s[0];
      if c == '{' then OneByte(ObjectBegin, s)
      else if c == '}' then OneByte(ObjectEnd, s)
      else if c == '[' then OneByte(ArrayBegin, s)
      else if c == ']' then OneByte(ArrayEnd, s)
      else if c == ',' then OneByte(ArraySeparator, s)
      else if c == ':' then OneByte(MemberSeparator, s)
      else if c == '"' then ReadString(s)
      else if c == '/' then ReadComment(s)
      else if c == '-' || '0' <= c <= '9' then ReadNumber(s)
      else if c == 't' then Word(True, "true", s)
      else if c == 'f' then Word(False, "false", s)
      else if c == 'n' then Word(NullWord, "null", s)
      else if c == '\0' then OneByte(EndOfStream, s)
      else OneByte(Error, s)
  }

  function ReadString(s: string): (t: Token)
    requires s != [] && s[0] == '"'
    ensures t.kind == String || t.kind == Error
    ensures |t.rest| < |s| && t.text != []
    ensures t.kind == String ==> |t.text| >= 2 && t.text[|t.text| - 1] == '"'
  {
    match StringLength(s[1..])
    case None => Token(Error, s, [])
    case Some(n) => Token(String, s[..1 + n], s[1 + n..])
  }

  predicate IsNumber(text: string) {
    && text != [] && (text[0] == '-' || '0' <= text[0] <= '9')
    && forall i :: 0 <= i < |text| ==> IsNumberChar(text[i])
  }

  function ReadNumber(s: string): (t: Token)
    requires s != [] && (s[0] == '-' || '0' <= s[0] <= '9')
    ensures t.kind == Number && IsNumber(t.text) && |t.rest| < |s|
  {
    var n := 1 + NumberLength(s[1..]);
    assert s[..n] == [s[0]] + s[1..][..n - 1];
    Token(Number, s[..n], s[n..])
  }

  lemma TokenBehindSpaces(s: string)
    ensures ReadToken(s) == ReadToken(SkipSpaces(s))
  {
    assert SkipSpaces(SkipSpaces(s)) == SkipSpaces(s);
  }

  /** A token is what lies in front of the rest, behind the white space. */
  lemma TokenSpan(s0: string)
    ensures var s, t := SkipSpaces(s0), ReadToken(s0);
      |t.text| <= |s| && t.text == s[..|t.text|] && t.rest == s[|t.text|..]
  {
    hide IsNumber, IsNumberChar, StringLength, NumberLength, BlockLength, RestOfLine, SkipSpaces, IsSpace;
  }

  /** skipCommentTokens: the first token that is no comment. */
  function NextToken(s: string): (t: Token)
    ensures |t.rest| <= |s| && (t.kind != EndOfStream ==> |t.rest| < |s|)
    ensures WellFormed(t) && t.kind != Comment
    decreases |s|
  {
    var t := ReadToken(s);
    if t.kind == Comment then NextToken(t.rest) else t
  }

  /** What lies behind the first token of a kind, or behind the end of the stream if there is none. */
  function SkipTo(kind: Kind, s: string): string
    decreases |s|
  {
    var t := ReadToken(s);
    if t.kind == kind || t.kind == EndOfStream then t.rest else SkipTo(kind, t.rest)
  }

  // ---------- decoding ----------

  const MAX_UINT: int := ULLONG_MAX
  const MIN_INT_MAGNITUDE: int := 0x8000_0000_0000_0000

  /** Whether sscanf with "%lf" reads a text is for the C library to say: nothing is known of this constant. */
  const ScansAsDouble: string -> bool

  /** The integer a number token denotes if it is one that fits, and otherwise a double, unless sscanf finds none.
      A lone '-' is zero. */
  function DecodeNumber(text: string): Option<Value>
    requires IsNumber(text)
  {
    var negative := text[0] == '-';
    var digits := if negative then text[1..] else text;
    if Decimal.AllDigits(digits) && Decimal.Value(digits) <= (if negative then MIN_INT_MAGNITUDE else MAX_UINT)
    then Some(if negative then Int(0 - Decimal.Value(digits)) else Tagged(Decimal.Value(digits)))
    else if ScansAsDouble(text) then Some(Real(text))
    else None
  }

  function HexDigit(c: char): (d: Option<int>)
    ensures d.Some? ==> 0 <= d.value < 16
  {
    if '0' <= c <= '9' then Some(c as int - '0' as int)
    else if 'a' <= c <= 'f' then Some(c as int - 'a' as int + 10)
    else if 'A' <= c <= 'F' then Some(c as int - 'A' as int + 10)
    else None
  }

  /** The first n bytes of s as a hexadecimal number. */
  function HexNumber(s: string, n: nat): (r: Option<int>)
    requires n <= |s|
    ensures r.Some? ==> r.value >= 0
  {
    if n == 0 then Some(0)
    else match HexNumber(s, n - 1)
      case None => None
      case Some(high) => match HexDigit(s[n - 1])
        case None => None
        case Some(d) => Some(16 * high + d)
  }

  datatype CodePoint = BadCodePoint | CodePoint(cp: int, rest: string)

  /** decodeUnicodeEscapeSequence, from after the 'u'. */
  function DecodeUnicodeEscape(s: string): (r: CodePoint)
    ensures r.CodePoint? ==> |r.rest| < |s| && r.cp >= 0
  {
    if |s| < 4 then BadCodePoint
    else match HexNumber(s, 4)
      case None => BadCodePoint
      case Some(u) => CodePoint(u, s[4..])
  }

  /** decodeUnicodeCodePoint: a high surrogate takes the escape after it as the low one, unchecked. */
  function DecodeCodePoint(s: string): (r: CodePoint)
    ensures r.CodePoint? ==> |r.rest| < |s| && r.cp >= 0
  {
    match DecodeUnicodeEscape(s)
    case BadCodePoint => BadCodePoint
    case CodePoint(high, rest) =>
      if !(0xD800 <= high <= 0xDBFF) then CodePoint(high, rest)
      else if |rest| < 6 || rest[0] != '\\' || rest[1] != 'u' then BadCodePoint
      else match DecodeUnicodeEscape(rest[2..])
        case BadCodePoint => BadCodePoint
        case CodePoint(low, rest2) => CodePoint(0x10000 + high % 0x400 * 0x400 + low % 0x400, rest2)
  }

  function CodePointToUtf8(cp: nat): string {
    if cp <= 0x7F then [cp as char]
    else if cp <= 0x7FF then [(0xC0 + cp / 0x40 % 0x20) as char, (0x80 + cp % 0x40) as char]
    else if cp <= 0xFFFF then
      [(0xE0 + cp / 0x1000 % 0x10) as char, (0x80 + cp / 0x40 % 0x40) as char, (0x80 + cp % 0x40) as char]
    else if cp <= 0x10FFFF then
      [(0xF0 + cp / 0x4_0000 % 8) as char, (0x80 + cp / 0x1000 % 0x40) as char, (0x80 + cp / 0x40 % 0x40) as char,
       (0x80 + cp % 0x40) as char]
    else []
  }

  const BACKSPACE := 8 as char
  const FORM_FEED := 12 as char

  /** The byte a two-byte escape stands for. */
  function Unescaped(c: char): Option<char> {
    if c == '"' || c == '/' || c == '\\' then Some(c)
    else if c == 'b' then Some(BACKSPACE)
    else if c == 'f' then Some(FORM_FEED)
    else if c == 'n' then Some('\n')
    else if c == 'r' then Some('\r')
    else if c == 't' then Some('\t')
    else None
  }

  function Prepend(head: string, tail: Option<string>): Option<string> {
    match tail case None => None case Some(t) => Some(head + t)
  }

  /** decodeString on the bytes between the quotes. */
  function Unescape(s: string): Option<string>
    decreases |s|
  {
    if s == [] || s[0] == '"' then Some([])
    else if s[0] != '\\' then Prepend([s[0]], Unescape(s[1..]))
    else if |s| == 1 then None
    else if s[1] == 'u' then
      match DecodeCodePoint(s[2..])
      case BadCodePoint => None
      case CodePoint(cp, rest) => Prepend(CodePointToUtf8(cp), Unescape(rest))
    else
      match Unescaped(s[1])
      case None => None
      case Some(c) => Prepend([c], Unescape(s[2..]))
  }

  function DecodeString(text: string): Option<string>
    requires |text| >= 2
  {
    Unescape(text[1..|text| - 1])
  }

  // ---------- values ----------

  datatype Reading = Failed | Read(value: Value, rest: string)

  function ReadScalar(t: Token): (r: Reading)
    requires t.kind == String ==> |t.text| >= 2
    requires t.kind == Number ==> IsNumber(t.text)
    ensures r.Read? ==> r.rest == t.rest && t.kind != EndOfStream && t.kind != Error
  {
    match t.kind
    case Number => (match DecodeNumber(t.text) case None => Failed case Some(v) => Read(v, t.rest))
    case String => (match DecodeString(t.text) case None => Failed case Some(s) => Read(Str(s), t.rest))
    case True => Read(Bool(true), t.rest)
    case False => Read(Bool(false), t.rest)
    case NullWord => Read(Null, t.rest)
    case _ => Failed
  }

  /** readValue */
  function ReadValue(s: string): (r: Reading)
    ensures r.Read? ==> |r.rest| < |s|
    decreases |s|, 0
  {
    var t := NextToken(s);
    if t.kind == ObjectBegin then ReadMembers(t.rest, [], [])
    else if t.kind == ArrayBegin then ReadArray(t.rest)
    else ReadScalar(t)
  }

  /** readArray, from after the bracket. */
  function ReadArray(s: string): (r: Reading)
    ensures r.Read? ==> |r.rest| < |s|
    decreases |s|, 2
  {
    var ahead := SkipSpaces(s);
    if ahead != [] && ahead[0] == ']' then Read(Arr([]), ahead[1..]) else ReadElements(ahead, [])
  }

  /** Its loop, with the elements stored so far. */
  function ReadElements(s: string, elements: seq<Value>): (r: Reading)
    ensures r.Read? ==> |r.rest| < |s|
    decreases |s|, 1
  {
    match ReadValue(s)
    case Failed => Failed
    case Read(v, rest) => AfterElement(rest, elements + [v])
  }

  /** From after an element. */
  function AfterElement(s: string, elements: seq<Value>): (r: Reading)
    ensures r.Read? ==> |r.rest| < |s|
    decreases |s|, 0
  {
    var t := NextToken(s);
    if t.kind == ArrayEnd then Read(Arr(elements), t.rest)
    else if t.kind == ArraySeparator then ReadElements(t.rest, elements)
    else Failed
  }

  /**
   * The loop of readObject, with the members stored so far and the last name read: a closing brace is
   * accepted where a name is due as long as that name is empty.
   */
  function ReadMembers(s: string, name: string, members: seq<Member>): (r: Reading)
    ensures r.Read? ==> |r.rest| < |s|
    decreases |s|, 1
  {
    var t := NextToken(s);
    if t.kind == ObjectEnd && name == [] then Read(Obj(members), t.rest)
    else if t.kind != String then Failed
    else
      match DecodeString(t.text)
      case None => Failed
      case Some(newName) =>
        var colon := ReadToken(t.rest);
        if colon.kind != MemberSeparator then Failed
        else
          match ReadValue(colon.rest)
          case Failed => Failed
          case Read(v, rest) => AfterMember(rest, newName, SetMember(members, CStr(newName), v))
  }

  /** From after a member. Behind comments, any token but a closing brace is taken for the comma. */
  function AfterMember(s: string, name: string, members: seq<Member>): (r: Reading)
    ensures r.Read? ==> |r.rest| < |s|
    decreases |s|, 0
  {
    var first := ReadToken(s);
    var comma := NextToken(s);
    if first.kind != ObjectEnd && first.kind != ArraySeparator && first.kind != Comment then Failed
    else if comma.kind == ObjectEnd then Read(Obj(members), comma.rest)
    else ReadMembers(comma.rest, name, members)
  }

  /** Reader::parse with the default features: what follows the first value is not looked at. */
  function Parse(document: string): Option<Value> {
    match ReadValue(document)
    case Failed => None
    case Read(v, _) => Some(v)
  }

  // ---------- facts about the parser itself ----------

  lemma {:induction false} SkipSpacesAhead(space: string, s: string)
    requires AllSpaces(space)
    ensures SkipSpaces(space + s) == SkipSpaces(s)
  {
    if space == [] {
      assert space + s == s;
    } else {
      SkipSpacesAhead(space[1..], s);
      assert (space + s)[1..] == space[1..] + s;
    }
  }

  lemma SpaceAheadOfToken(space: string, s: string)
    requires AllSpaces(space)
    ensures ReadToken(space + s) == ReadToken(s)
  {
    SkipSpacesAhead(space, s);
  }

  /** The digits behind the sign of a number token, which may be none or anything else. */
  function Digits(text: string): string
    requires IsNumber(text)
  {
    if text[0] == '-' then text[1..] else text
  }

  /** The token denotes an integer that fits: from -2^63 to 2^64-1. */
  predicate FitsInteger(text: string)
    requires IsNumber(text)
  {
    && Decimal.AllDigits(Digits(text))
    && Decimal.Value(Digits(text)) <= (if text[0] == '-' then 0x8000_0000_0000_0000 else 0xFFFF_FFFF_FFFF_FFFF)
  }

  /** An integer as section 6 of RFC 8259 has it: no leading zero, and a digit at least. */
  ghost predicate IsRfcInteger(text: string) {
    exists n: nat :: text == Decimal.Numeral(n) || text == "-" + Decimal.Numeral(n)
  }

  predicate IsInteger(v: Value) { v.Int? || v.UInt? }

  lemma RfcIntegerShape(text: string)
    requires IsNumber(text)
    ensures var d := Digits(text);
      IsRfcInteger(text) <==> d != [] && Decimal.AllDigits(d) && (d[0] == '0' ==> |d| == 1)
  {
    hide Decimal.Numeral, Decimal.Value, IsNumberChar;
    var d := Digits(text);
    if IsRfcInteger(text) {
      var n: nat :| text == Decimal.Numeral(n) || text == "-" + Decimal.Numeral(n);
      NumeralHead(n);
      assert d == Decimal.Numeral(n);
    }
    if d != [] && Decimal.AllDigits(d) && (d[0] == '0' ==> |d| == 1) {
      Decimal.NumeralOfValue(d);
      assert text[0] == '-' ==> text == "-" + d;
    }
  }

  lemma NumeralHead(n: nat)
    ensures Decimal.Numeral(n)[0] != '-'
    ensures Decimal.Numeral(n)[0] == '0' ==> |Decimal.Numeral(n)| == 1
  {
    hide Decimal.Value;
    Decimal.ValueOfNumeral(n);
    assert Decimal.IsDigit(Decimal.Numeral(n)[0]);
  }

  /** A document that is a number token alone is decoded as that token. */
  lemma ParseNumber(text: string)
    requires IsNumber(text)
    ensures Parse(text) == DecodeNumber(text)
  {
    hide DecodeNumber, ReadString, Word;
    AllNumberChars(text[1..]);
    assert SkipSpaces(text) == text;
    assert ReadNumber(text) == Token(Number, text, []);
    assert ReadToken(text) == ReadNumber(text);
  }

  lemma {:induction false} AllNumberChars(s: string)
    requires forall i :: 0 <= i < |s| ==> IsNumberChar(s[i])
    ensures NumberLength(s) == |s|
  {
    if s != [] {
      AllNumberChars(s[1..]);
    }
  }

  /**
   * Which number documents are integers for the reader without being integers for RFC 8259: exactly those in
   * range whose digits are missing or start with a superfluous zero. An RFC 8259 integer is one for the reader
   * exactly when it is in range. A number document fails exactly when it is no integer in range and no double.
   */
  lemma IntegersBeyondRfc(text: string)
    requires IsNumber(text)
    ensures var v := Parse(text);
      && (v.Some? && IsInteger(v.value) && !IsRfcInteger(text) <==>
          FitsInteger(text) && (Digits(text) == [] || (|Digits(text)| > 1 && Digits(text)[0] == '0')))
      && (IsRfcInteger(text) ==> (v.Some? && IsInteger(v.value) <==> FitsInteger(text)))
      && (v == None <==> !FitsInteger(text) && !ScansAsDouble(text))
  {
    hide IsRfcInteger, Parse, IsNumber, Decimal.AllDigits, Decimal.Value;
    ParseNumber(text);
    RfcIntegerShape(text);
  }

  /** One of them: a lone minus sign is a number token, and it reads as zero. */
  lemma LoneMinusIsZero()
    ensures Parse("-") == Some(Int(0)) && !IsRfcInteger("-")
  {
    hide IsRfcInteger, Parse;
    IntegersBeyondRfc("-");
    ParseNumber("-");
    assert "-"[1..] == [];
  }
}
