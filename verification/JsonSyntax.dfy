/** Where the syntax that the reader accepts, and the writers produce, agrees with RFC 8259 and where it does not. */
module JsonSyntax {
  import opened Common
  import opened JsonValue
  import opened JsonGrammar
  import opened JsonText
  import opened JsonRoundTrip
  import opened JsonUnicode
  import Decimal

  // ---------- numbers ----------

  /** The parts of a number in section 6 of RFC 8259. */
  datatype RfcNumber = RfcNumber(negative: bool, whole: nat, fraction: Option<string>, exponent: Option<Exponent>)

  datatype Exponent = Exponent(letter: char, sign: string, digits: string)

  predicate IsDigits(s: string) { s != "" && forall i :: 0 <= i < |s| ==> '0' <= s[i] <= '9' }

  predicate IsNumberParts(n: RfcNumber) {
    && (n.fraction.Some? ==> IsDigits(n.fraction.value))
    && (n.exponent.Some? ==> IsExponent(n.exponent.value))
  }

  predicate IsExponent(e: Exponent) { (e.letter == 'e' || e.letter == 'E') && e.sign in {"", "+", "-"} && IsDigits(e.digits) }

  function NumberText(n: RfcNumber): string {
    (if n.negative then "-" else "") + Decimal.Numeral(n.whole)
    + (match n.fraction case None => "" case Some(f) => "." + f)
    + (match n.exponent case None => "" case Some(e) => [e.letter] + e.sign + e.digits)
  }

  predicate AllNumberBytes(s: string) { forall i :: 0 <= i < |s| ==> IsNumberChar(s[i]) }

  /** Every number of the RFC is one number token, in front of anything that cannot continue it. */
  lemma RfcNumberIsToken(n: RfcNumber, rest: string)
    requires IsNumberParts(n) && Stop(rest)
    ensures ReadToken(NumberText(n) + rest) == Token(Number, NumberText(n), rest)
  {
    hide ReadToken, IsDigits;
    var a := (if n.negative then "-" else "") + Decimal.Numeral(n.whole);
    var b := match n.fraction case None => "" case Some(f) => "." + f;
    var c := match n.exponent case None => "" case Some(e) => [e.letter] + e.sign + e.digits;
    WholeBytes(n.negative, n.whole);
    FractionBytes(n);
    ExponentBytes(n);
    assert NumberText(n) == a + b + c;
    assert IsNumber(a + b + c);
    TokenOfNumber(NumberText(n), rest);
  }

  lemma WholeBytes(negative: bool, whole: nat)
    ensures var a := (if negative then "-" else "") + Decimal.Numeral(whole);
      AllNumberBytes(a) && a != "" && (a[0] == '-' || '0' <= a[0] <= '9')
  {
    hide Decimal.Numeral, Decimal.Value;
    Decimal.ValueOfNumeral(whole);
    var d := Decimal.Numeral(whole);
    assert forall i :: 0 <= i < |d| ==> Decimal.IsDigit(d[i]);
  }

  lemma FractionBytes(n: RfcNumber)
    requires IsNumberParts(n)
    ensures AllNumberBytes(match n.fraction case None => "" case Some(f) => "." + f)
  {
  }

  lemma ExponentBytes(n: RfcNumber)
    requires IsNumberParts(n)
    ensures AllNumberBytes(match n.exponent case None => "" case Some(e) => [e.letter] + e.sign + e.digits)
  {
  }

  // ---------- commas in front of a closing bracket ----------

  /** Behind a comma a closing brace is accepted if and only if the name of the member before it is empty. */
  lemma TrailingComma(name: string, members: seq<Member>, rest: string)
    ensures AfterMember(",}" + rest, name, members) == if name == "" then Read(Obj(members), rest) else Failed
  {
    hide ReadToken;
    NoSpace();
    var brace := "}" + rest;
    TokenOfPunctuation([], ',', brace);
    assert [] + [','] + brace == ",}" + rest;
    TokenOfPunctuation([], '}', rest);
    assert [] + ['}'] + rest == brace;
  }

  /** In an array it never is. */
  lemma TrailingCommaInArray(elements: seq<Value>, rest: string)
    ensures AfterElement(",]" + rest, elements) == Failed
  {
    hide ReadToken;
    NoSpace();
    var bracket := "]" + rest;
    TokenOfPunctuation([], ',', bracket);
    assert [] + [','] + bracket == ",]" + rest;
    TokenOfPunctuation([], ']', rest);
    assert [] + [']'] + rest == bracket;
    assert ReadValue(bracket) == Failed;
    assert ReadElements(bracket, elements) == Failed;
  }

  // ---------- strings ----------

  /** A byte is written with its short escape if it has one, the slash excepted; another control character with four
      digits, letters in upper case; and any other byte as itself. */
  lemma WrittenEscapes(c: char, i: nat)
    requires i < 8
    ensures c == MEANINGS[i] && c != '/' ==> EscapeChar(c) == ['\\', ESCAPED[i]]
    ensures c !in MEANINGS && 0 < c as int < 0x20 ==>
      EscapeChar(c) == "\\u00" + [UPPER_HEX[c as int / 16], UPPER_HEX[c as int % 16]]
    ensures c == '/' || (c !in MEANINGS && (c as int >= 0x20 || c == '\0')) ==> EscapeChar(c) == [c]
  {
    if 0 < c as int < 0x20 {
      UpperCase(c as int / 16);
      UpperCase(c as int % 16);
    }
  }

  lemma UpperCase(d: int)
    requires 0 <= d < 16
    ensures HexChar(d) == UPPER_HEX[d]
  {
  }
}
