/** Json::Reader: a cursor moving over the document (jsoncpp/json_reader.cpp). */
module JsonReader {
  import opened Common
  import opened JsonValue
  import Grammar = JsonGrammar
  import opened JsonGrammar
  import Decimal

  /** Adds the next digit to a number read so far. */
  lemma ValueNext(s: string, k: nat)
    requires k < |s| && Decimal.AllDigits(s[..k + 1])
    ensures Decimal.AllDigits(s[..k])
    ensures Decimal.Value(s[..k + 1]) == 10 * Decimal.Value(s[..k]) + Decimal.DigitValue(s[k])
  {
    assert s[..k + 1][..k] == s[..k] && s[..k + 1][k] == s[k];
    forall i | 0 <= i < k ensures Decimal.IsDigit(s[..k][i]) {
      assert s[..k][i] == s[..k + 1][i];
    }
  }

  lemma ValueOfNothing(s: string)
    ensures Decimal.Value(s[..0]) == 0
  {
  }

  /** Digits left over after the limit was reached push the value past it. */
  lemma {:induction false} ValueBeyond(s: string, k: nat)
    requires k <= |s| && Decimal.AllDigits(s)
    ensures Decimal.AllDigits(s[..k]) && Decimal.Value(s) >= Decimal.Value(s[..k])
    ensures k < |s| ==> Decimal.Value(s) >= 10 * Decimal.Value(s[..k])
    decreases |s| - k
  {
    if k < |s| {
      assert Decimal.AllDigits(s[..k + 1]);
      ValueNext(s, k);
      ValueBeyond(s, k + 1);
    } else {
      assert s[..k] == s;
    }
  }

  lemma StringLengthStep(s: string)
    ensures StringLength(s) ==
      if s == [] then None
      else if s[0] == '"' then Some(1)
      else
        var skip := if s[0] == '\\' then 2 else 1;
        if skip > |s| then None else match StringLength(s[skip..]) case None => None case Some(n) => Some(skip + n)
  {
  }

  lemma SliceInside(s: string, start: nat, end: nat)
    requires start + 2 <= end <= |s|
    ensures s[start..end][1..end - start - 1] == s[start + 1..end - 1]
  {
    assert s[start..end] == [s[start]] + s[start + 1..end - 1] + [s[end - 1]];
  }

  lemma SliceFrom(s: string, start: nat, end: nat)
    requires start + 2 <= end <= |s|
    ensures s[start..end][0] == s[start] && s[start..end][1] == s[start + 1] && s[start..end][2..] == s[start + 2..end]
  {
  }

  lemma TakeThenDrop(s: string, i: nat, j: nat)
    requires i <= j <= |s|
    ensures s[i..][..j - i] == s[i..j] && s[i..][j - i..] == s[j..]
  {
  }

  class Reader {
    var document: string
    var current: nat
    var errors: seq<string>

    predicate Valid()
      reads this
    {
      current <= |document|
    }

    /** The bytes not read yet. */
    function Ahead(): string
      requires Valid()
      reads this
    {
      document[current..]
    }

    constructor ()
      ensures Valid() && errors == []
    {
      document, current, errors := [], 0, [];
    }

    /** Reads the whole document; false exactly when errors were recorded. */
    method Parse(text: string) returns (successful: bool, root: Value)
      modifies this
      ensures var r := Grammar.Parse(text);
        successful == r.Some? && (successful ==> root == r.value)
      ensures successful <==> errors == []
    {
      hide Grammar.ReadValue, Grammar.ReadToken;
      document := text;
      current := 0;
      errors := [];
      assert Ahead() == text;
      successful, root := ReadValue();
      var _, _, _ := SkipCommentTokens();
    }

    method AddError(message: string)
      modifies this`errors
      ensures errors == old(errors) + [message]
    {
      errors := errors + [message];
    }

    /** Skips to behind a closing token, without adding errors. */
    method RecoverFromError(skipUntilToken: Kind)
      requires Valid()
      modifies this`current
      ensures Valid() && current >= old(current)
      ensures Ahead() == SkipTo(skipUntilToken, old(Ahead()))
    {
      hide Grammar.ReadToken;
      while true
        invariant Valid() && current >= old(current)
        invariant SkipTo(skipUntilToken, Ahead()) == SkipTo(skipUntilToken, old(Ahead()))
        decreases |document| - current
      {
        var kind, _, _ := ReadToken();
        if kind == skipUntilToken || kind == EndOfStream {
          break;
        }
      }
    }

    // ---------- tokens ----------

    method GetNextChar() returns (c: char)
      requires Valid()
      modifies this`current
      ensures Valid()
      ensures if old(Ahead()) == [] then c == '\0' && current == old(current)
              else c == old(Ahead())[0] && current == old(current) + 1
    {
      if current == |document| {
        return '\0';
      }
      c := document[current];
      current := current + 1;
    }

    method SkipSpaces()
      requires Valid()
      modifies this`current
      ensures Valid() && Ahead() == Grammar.SkipSpaces(old(Ahead()))
      ensures current >= old(current)
    {
      while current != |document|
        invariant Valid() && old(current) <= current
        invariant Grammar.SkipSpaces(Ahead()) == Grammar.SkipSpaces(old(Ahead()))
        decreases |document| - current
      {
        var c := document[current];
        if c == ' ' || c == '\t' || c == '\r' || c == '\n' {
          assert Ahead()[1..] == document[current + 1..];
          current := current + 1;
        } else {
          break;
        }
      }
    }

    method Match(pattern: string) returns (ok: bool)
      requires Valid()
      modifies this`current
      ensures Valid() && current >= old(current)
      ensures ok == (pattern <= old(Ahead()))
      ensures current == if ok then old(current) + |pattern| else old(current)
    {
      if |document| - current < |pattern| {
        return false;
      }
      var index := |pattern|;
      while index > 0
        invariant 0 <= index <= |pattern| && current + |pattern| <= |document| && current == old(current)
        invariant forall i :: index <= i < |pattern| ==> document[current + i] == pattern[i]
      {
        index := index - 1;
        if document[current + index] != pattern[index] {
          assert Ahead()[index] != pattern[index];
          return false;
        }
      }
      assert document[current..current + |pattern|] == pattern;
      assert Ahead()[..|pattern|] == pattern;
      current := current + |pattern|;
      ok := true;
    }

    method ReadNumber()
      requires Valid()
      modifies this`current
      ensures Valid() && current == old(current) + NumberLength(old(Ahead()))
    {
      while current != |document|
        invariant Valid() && current >= old(current)
        invariant current - old(current) + NumberLength(Ahead()) == NumberLength(old(Ahead()))
        decreases |document| - current
      {
        if !IsNumberChar(document[current]) {
          break;
        }
        assert Ahead()[1..] == document[current + 1..];
        current := current + 1;
      }
    }

    /** From after the opening quote to after the closing one. */
    method ReadString() returns (ok: bool)
      requires Valid()
      modifies this`current
      ensures Valid() && current >= old(current)
      ensures var n := StringLength(old(Ahead()));
        ok == n.Some? && current == if ok then old(current) + n.value else |document|
    {
      hide StringLength;
      var c := '\0';
      ghost var whole := StringLength(Ahead());
      while current != |document|
        invariant Valid() && current >= old(current) && c != '"'
        invariant var n := StringLength(Ahead());
          whole == match n case None => None case Some(k) => Some(current - old(current) + k)
        decreases |document| - current
      {
        ghost var ahead := Ahead();
        StringLengthStep(ahead);
        c := GetNextChar();
        if c == '\\' {
          var _ := GetNextChar();
          assert |ahead| >= 2 ==> Ahead() == ahead[2..];
        } else if c == '"' {
          break;
        } else {
          assert Ahead() == ahead[1..];
        }
      }
      StringLengthStep(Ahead());
      ok := c == '"';
    }

    /** From after the first slash. */
    method ReadComment(ghost s: string) returns (ok: bool)
      requires Valid() && s != [] && s[0] == '/' && Ahead() == s[1..]
      modifies this`current
      ensures Valid() && current >= old(current)
      ensures var t := Grammar.ReadComment(s);
        ok == (t.kind == Comment) && current == old(current) + |t.text| - 1
    {
      hide BlockLength, RestOfLine;
      var c := GetNextChar();
      assert |s| >= 2 ==> c == s[1] && Ahead() == s[2..];
      if c == '*' {
        ok := ReadCStyleComment();
      } else if c == '/' {
        ok := true;
        ReadCppStyleComment();
      } else {
        ok := false;
      }
    }

    method ReadCStyleComment() returns (ok: bool)
      requires Valid()
      modifies this`current
      ensures Valid() && current >= old(current)
      ensures var n := BlockLength(old(Ahead()));
        ok == n.Some? && current == if ok then old(current) + n.value else |document|
    {
      hide BlockLength;
      ghost var whole := BlockLength(Ahead());
      while current != |document|
        invariant Valid() && current >= old(current)
        invariant var n := BlockLength(Ahead());
          whole == match n case None => None case Some(k) => Some(current - old(current) + k)
        decreases |document| - current
      {
        ghost var ahead := Ahead();
        BlockLengthStep(ahead);
        var c := GetNextChar();
        assert Ahead() == ahead[1..];
        if c == '*' && current < |document| && document[current] == '/' {
          assert ahead[1] == '/';
          var _ := GetNextChar();
          return true;
        }
      }
      BlockLengthStep(Ahead());
      ok := false;
    }

    method ReadCppStyleComment()
      requires Valid()
      modifies this`current
      ensures Valid() && current == old(current) + RestOfLine(old(Ahead()))
    {
      while current != |document|
        invariant Valid() && current >= old(current)
        invariant current - old(current) + RestOfLine(Ahead()) == RestOfLine(old(Ahead()))
        decreases |document| - current
      {
        ghost var ahead := Ahead();
        var c := GetNextChar();
        assert Ahead() == ahead[1..];
        if c == '\r' || c == '\n' {
          return;
        }
      }
    }

    /** The first token that is no comment. */
    method SkipCommentTokens() returns (kind: Kind, start: nat, end: nat)
      requires Valid()
      modifies this`current
      ensures Valid() && current >= old(current)
      ensures start <= end <= |document|
      ensures NextToken(old(Ahead())) == Token(kind, document[start..end], Ahead())
      ensures kind != EndOfStream ==> current > old(current)
    {
      hide Grammar.ReadToken;
      kind, start, end := ReadToken();
      while kind == Comment
        invariant Valid() && current >= old(current) && start <= end <= |document|
        invariant NextToken(old(Ahead())) == if kind == Comment then NextToken(Ahead()) else Token(kind, document[start..end], Ahead())
        invariant kind != EndOfStream ==> current > old(current)
        decreases |document| - current, kind == Comment
      {
        kind, start, end := ReadToken();
      }
    }

    /** The kind of the next token and where it lies; any token but the end moves the cursor. */
    method ReadToken() returns (kind: Kind, start: nat, end: nat)
      requires Valid()
      modifies this`current
      ensures Valid() && current >= old(current)
      ensures start <= end <= |document|
      ensures Grammar.ReadToken(old(Ahead())) == Token(kind, document[start..end], Ahead())
      ensures kind != EndOfStream ==> current > old(current)
    {
      hide Grammar.ReadToken, Grammar.SkipSpaces;
      ghost var s0 := Ahead();
      SkipSpaces();
      Grammar.TokenBehindSpaces(s0);
      Grammar.TokenSpan(s0);
      start := current;
      kind := TakeToken();
      end := current;
      TakeThenDrop(document, start, end);
    }

    /** The switch on the first byte of a token. */
    method TakeToken() returns (kind: Kind)
      requires Valid() && (Ahead() == [] || !Grammar.IsSpace(Ahead()[0]))
      modifies this`current
      ensures Valid() && current >= old(current)
      ensures var t := Grammar.ReadToken(old(Ahead()));
        kind == t.kind && current == old(current) + |t.text|
      ensures kind != EndOfStream ==> current > old(current)
    {
      hide StringLength, NumberLength, BlockLength, RestOfLine, IsNumber, IsNumberChar;
      ghost var s := Ahead();
      var c := GetNextChar();
      assert s != [] ==> Ahead() == s[1..];
      var ok := true;
      if c == '{' {
        kind := ObjectBegin;
      } else if c == '}' {
        kind := ObjectEnd;
      } else if c == '[' {
        kind := ArrayBegin;
      } else if c == ']' {
        kind := ArrayEnd;
      } else if c == '"' {
        kind := String;
        ok := ReadString();
      } else if c == '/' {
        kind := Comment;
        ok := ReadComment(s);
      } else if '0' <= c <= '9' || c == '-' {
        kind := Number;
        ReadNumber();
      } else if c == 't' {
        kind := True;
        ok := MatchWord(s, "true");
      } else if c == 'f' {
        kind := False;
        ok := MatchWord(s, "false");
      } else if c == 'n' {
        kind := NullWord;
        ok := MatchWord(s, "null");
      } else if c == ',' {
        kind := ArraySeparator;
      } else if c == ':' {
        kind := MemberSeparator;
      } else if c == '\0' {
        kind := EndOfStream;
      } else {
        kind := Error;
        ok := false;
      }
      if !ok {
        kind := Error;
      }
    }

    /** match() on the rest of a word whose first byte was consumed. */
    method MatchWord(ghost s: string, word: string) returns (ok: bool)
      requires Valid() && word != [] && s != [] && s[0] == word[0] && Ahead() == s[1..]
      modifies this`current
      ensures Valid() && current >= old(current)
      ensures ok == (word <= s)
      ensures current == if ok then old(current) + |word| - 1 else old(current)
      ensures ok ==> s[..|word|] == word
    {
      ok := Match(word[1..]);
      assert word == [word[0]] + word[1..] && s == [s[0]] + s[1..];
      if word[1..] <= s[1..] {
        assert s[..|word|] == word;
      }
      if word <= s {
        assert s[1..][..|word| - 1] == word[1..];
      }
    }

    // ---------- decoding ----------

    /** decodeDouble: the text that sscanf reads, or an error. */
    method DecodeDouble(start: nat, end: nat) returns (ok: bool, decoded: Value)
      requires start <= end <= |document|
      modifies this`errors
      ensures ok == ScansAsDouble(document[start..end]) && (ok ==> decoded == Real(document[start..end]))
      ensures if ok then errors == old(errors) else |errors| > |old(errors)|
    {
      ok, decoded := ScansAsDouble(document[start..end]), Real(document[start..end]);
      if !ok {
        AddError("'" + document[start..end] + "' is not a number.");
      }
    }

    /** Accumulates digits while they fit, comparing with a tenth of the limit before each step. */
    method DecodeNumber(start: nat, end: nat) returns (ok: bool, decoded: Value)
      requires start <= end <= |document| && IsNumber(document[start..end])
      modifies this`errors
      ensures var r := Grammar.DecodeNumber(document[start..end]);
        ok == r.Some? && (ok ==> decoded == r.value)
      ensures if ok then errors == old(errors) else |errors| > |old(errors)|
    {
      ghost var text := document[start..end];
      var isDouble := false;
      for inspect := start to end
        invariant isDouble == exists i :: 0 <= i < inspect - start && Fractional(text, i)
      {
        assert document[inspect] == text[inspect - start];
        isDouble := isDouble || Fractional(document[start..end], inspect - start);
      }
      if isDouble {
        NotAllDigits(text);
        ok, decoded := DecodeDouble(start, end);
        return;
      }
      var isNegative := document[start] == '-';
      var first := if isNegative then start + 1 else start;
      assert document[first..end] == if text[0] == '-' then text[1..] else text;
      PlainDigits(text);
      var fits, value := Accumulate(first, end, if isNegative then MIN_INT_MAGNITUDE else MAX_UINT);
      if !fits {
        ok, decoded := DecodeDouble(start, end);
        return;
      }
      ok := true;
      if isNegative {
        decoded := Int(-value);
      } else if value <= INT_MAX {
        decoded := Int(value);
      } else {
        decoded := UInt(value);
      }
    }

    /** Keeps every intermediate value within the limit, and gives up exactly when the number does not fit. */
    method Accumulate(first: nat, end: nat, maxIntegerValue: int) returns (fits: bool, value: int)
      requires first <= end <= |document| && Decimal.AllDigits(document[first..end])
      requires maxIntegerValue == MIN_INT_MAGNITUDE || maxIntegerValue == MAX_UINT
      ensures fits <==> Decimal.Value(document[first..end]) <= maxIntegerValue
      ensures fits ==> value == Decimal.Value(document[first..end])
    {
      hide Decimal.Value;
      ghost var digits := document[first..end];
      var threshold := maxIntegerValue / 10;
      value := 0;
      var current := first;
      ValueOfNothing(digits);
      while current < end
        invariant first <= current <= end
        invariant Decimal.AllDigits(digits[..current - first]) && value == Decimal.Value(digits[..current - first])
        invariant value <= maxIntegerValue
      {
        var c := document[current];
        assert c == digits[current - first];
        current := current + 1;
        var digit := c as int - '0' as int;
        assert Decimal.AllDigits(digits[..current - first]);
        ValueNext(digits, current - 1 - first);
        ValueBeyond(digits, current - first);
        if value >= threshold {
          if value > threshold || current != end || digit > maxIntegerValue % 10 {
            assert digits[..|digits|] == digits;
            fits := false;
            return;
          }
        }
        value := value * 10 + digit;
      }
      assert digits[..end - first] == digits;
      fits := true;
    }

    method DecodeString(start: nat, end: nat) returns (ok: bool, decoded: string)
      requires start + 2 <= end <= |document|
      modifies this`errors
      ensures var r := Grammar.DecodeString(document[start..end]);
        ok == r.Some? && (ok ==> decoded == r.value)
      ensures if ok then errors == old(errors) else |errors| > |old(errors)|
    {
      hide DecodeCodePoint, CodePointToUtf8;
      var current, stop := start + 1, end - 1;
      ghost var inner := document[current..stop];
      SliceInside(document, start, end);
      decoded := [];
      PrependNothing(Unescape(inner));
      while current != stop
        invariant start + 1 <= current <= stop && errors == old(errors)
        invariant Unescape(inner) == Prepend(decoded, Unescape(document[current..stop]))
        decreases stop - current
      {
        ghost var ahead := document[current..stop];
        var c := document[current];
        current := current + 1;
        assert ahead[1..] == document[current..stop];
        if c == '"' {
          assert decoded + [] == decoded;
          return true, decoded;
        } else if c == '\\' {
          if current == stop {
            AddError("Empty escape sequence in string");
            return false, decoded;
          }
          var escape := document[current];
          current := current + 1;
          assert ahead[2..] == document[current..stop] && escape == ahead[1];
          if escape == 'u' {
            var fine, unicode, next := DecodeUnicodeCodePoint(current, stop);
            if !fine {
              return false, decoded;
            }
            current := next;
            PrependTwice(decoded, CodePointToUtf8(unicode), Unescape(document[current..stop]));
            decoded := decoded + CodePointToUtf8(unicode);
          } else {
            var plain := Unescaped(escape);
            if plain.None? {
              AddError("Bad escape sequence in string");
              return false, decoded;
            }
            PrependTwice(decoded, [plain.value], Unescape(document[current..stop]));
            decoded := decoded + [plain.value];
          }
        } else {
          PrependTwice(decoded, [c], Unescape(document[current..stop]));
          decoded := decoded + [c];
        }
      }
      ok := true;
    }

    method DecodeUnicodeCodePoint(start: nat, end: nat) returns (ok: bool, unicode: nat, current: nat)
      requires start <= end <= |document|
      modifies this`errors
      ensures var r := DecodeCodePoint(document[start..end]);
        ok == r.CodePoint? && (ok ==> start <= current <= end && unicode == r.cp && document[current..end] == r.rest)
      ensures if ok then errors == old(errors) else |errors| > |old(errors)|
    {
      hide DecodeUnicodeEscape;
      ok, unicode, current := DecodeUnicodeEscapeSequence(start, end);
      if !ok {
        return;
      }
      if 0xD800 <= unicode <= 0xDBFF {
        var surrogatePair;
        ok, surrogatePair, current := DecodeSecondHalf(current, end);
        unicode := 0x10000 + unicode % 0x400 * 0x400 + surrogatePair % 0x400;
      }
    }

    /** The escape after a high surrogate. */
    method DecodeSecondHalf(start: nat, end: nat) returns (ok: bool, unicode: nat, current: nat)
      requires start <= end <= |document|
      modifies this`errors
      ensures var rest := document[start..end];
        if |rest| < 6 || rest[0] != '\\' || rest[1] != 'u' then !ok
        else
          var r := DecodeUnicodeEscape(rest[2..]);
          ok == r.CodePoint? && (ok ==> start <= current <= end && unicode == r.cp && document[current..end] == r.rest)
      ensures if ok then errors == old(errors) else |errors| > |old(errors)|
    {
      hide DecodeUnicodeEscape;
      if end - start < 6 {
        AddError("additional six characters expected to parse unicode surrogate pair.");
        return false, 0, start;
      }
      SliceFrom(document, start, end);
      if document[start] == '\\' && document[start + 1] == 'u' {
        ok, unicode, current := DecodeUnicodeEscapeSequence(start + 2, end);
      } else {
        AddError("expecting another \\u token to begin the second half of a unicode surrogate pair");
        return false, 0, start;
      }
    }

    method DecodeUnicodeEscapeSequence(start: nat, end: nat) returns (ok: bool, unicode: nat, current: nat)
      requires start <= end <= |document|
      modifies this`errors
      ensures var r := DecodeUnicodeEscape(document[start..end]);
        ok == r.CodePoint? && (ok ==> start <= current <= end && unicode == r.cp && document[current..end] == r.rest)
      ensures if ok then errors == old(errors) else |errors| > |old(errors)|
    {
      ghost var s := document[start..end];
      unicode, current := 0, start;
      if end - current < 4 {
        AddError("Bad unicode escape sequence in string: four digits expected.");
        return false, unicode, current;
      }
      for index := 0 to 4
        invariant current == start + index && HexNumber(s, index) == Some(unicode) && errors == old(errors)
      {
        var c := document[current];
        assert c == s[index];
        current := current + 1;
        var digit := HexDigit(c);
        if digit.None? {
          NoHexNumber(s, index + 1, 4);
          AddError("Bad unicode escape sequence in string: hexadecimal digit expected.");
          return false, unicode, current;
        }
        unicode := unicode * 16 + digit.value;
      }
      ok := true;
      assert s[4..] == document[current..end];
    }

    // ---------- values ----------

    method ReadValue() returns (successful: bool, value: Value)
      requires Valid()
      modifies this`current, this`errors
      ensures Valid()
      ensures var r := Grammar.ReadValue(old(Ahead()));
        successful == r.Read? && (successful ==> value == r.value && Ahead() == r.rest)
      ensures if successful then errors == old(errors) else |errors| > |old(errors)|
      decreases |document| - current, 0
    {
      hide NextToken, Grammar.ReadArray, ReadMembers, Grammar.DecodeNumber, Grammar.DecodeString;
      value := Null;
      var kind, start, end := SkipCommentTokens();
      if kind == ObjectBegin {
        successful, value := ReadObject();
      } else if kind == ArrayBegin {
        successful, value := this.ReadArray();
      } else if kind == Number {
        successful, value := DecodeNumber(start, end);
      } else if kind == String {
        var decoded;
        successful, decoded := DecodeString(start, end);
        value := Str(decoded);
      } else if kind == True {
        successful, value := true, Bool(true);
      } else if kind == False {
        successful, value := true, Bool(false);
      } else if kind == NullWord {
        successful, value := true, Null;
      } else {
        AddError("Syntax error: value, object or array expected.");
        successful := false;
      }
    }

    method ReadArray() returns (successful: bool, value: Value)
      requires Valid()
      modifies this`current, this`errors
      ensures Valid()
      ensures var r := Grammar.ReadArray(old(Ahead()));
        successful == r.Read? && (successful ==> value == r.value && Ahead() == r.rest)
      ensures if successful then errors == old(errors) else |errors| > |old(errors)|
      decreases |document| - current, 1
    {
      hide Grammar.ReadToken, NextToken, Grammar.ReadValue, Grammar.SkipSpaces, SkipTo;
      SkipSpaces();
      ghost var ahead := Ahead();
      if current != |document| && document[current] == ']' {
        ClosingBracket(old(Ahead()));
        var _, _, _ := ReadToken();
        return true, Arr([]);
      }
      var elements := [];
      while true
        invariant Valid() && current >= old(current) && errors == old(errors)
        invariant ReadElements(Ahead(), elements) == ReadElements(ahead, [])
        decreases |document| - current
      {
        var ok, element := ReadValue();
        if !ok {
          RecoverFromError(ArrayEnd);
          return false, Arr(elements);
        }
        elements := elements + [element];
        var kind, _, _ := SkipCommentTokens();
        if kind != ArraySeparator && kind != ArrayEnd {
          AddError("Missing ',' or ']' in array declaration");
          RecoverFromError(ArrayEnd);
          return false, Arr(elements);
        }
        if kind == ArrayEnd {
          break;
        }
      }
      return true, Arr(elements);
    }

    method ReadObject() returns (successful: bool, value: Value)
      requires Valid()
      modifies this`current, this`errors
      ensures Valid()
      ensures var r := ReadMembers(old(Ahead()), [], []);
        successful == r.Read? && (successful ==> value == r.value && Ahead() == r.rest)
      ensures if successful then errors == old(errors) else |errors| > |old(errors)|
      decreases |document| - current, 1
    {
      hide Grammar.ReadToken, NextToken, Grammar.ReadValue, Grammar.DecodeString, SetMember, CStr, SkipTo;
      var name, members := [], [];
      while true
        invariant Valid() && current >= old(current) && errors == old(errors)
        invariant ReadMembers(Ahead(), name, members) == ReadMembers(old(Ahead()), [], [])
        decreases |document| - current
      {
        var kind, start, end := SkipCommentTokens();
        if kind == ObjectEnd && name == [] {
          return true, Obj(members);
        }
        if kind != String {
          break;
        }
        var ok, newName := DecodeString(start, end);
        if !ok {
          RecoverFromError(ObjectEnd);
          return false, Obj(members);
        }
        name := newName;
        var colon, _, _ := ReadToken();
        if colon != MemberSeparator {
          AddError("Missing ':' after object member name");
          RecoverFromError(ObjectEnd);
          return false, Obj(members);
        }
        var fine, member := ReadValue();
        if !fine {
          RecoverFromError(ObjectEnd);
          return false, Obj(members);
        }
        members := SetMember(members, CStr(name), member);
        ghost var behind := Ahead();
        var comma, _, _ := ReadToken();
        if comma != ObjectEnd && comma != ArraySeparator && comma != Comment {
          AddError("Missing ',' or '}' in object declaration");
          RecoverFromError(ObjectEnd);
          return false, Obj(members);
        }
        NextOrBehind(behind);
        if comma == Comment {
          comma, start, end := SkipCommentTokens();
        }
        if comma == ObjectEnd {
          return true, Obj(members);
        }
      }
      AddError("Missing '}' or object member name");
      RecoverFromError(ObjectEnd);
      return false, Obj(members);
    }
  }

  lemma BlockLengthStep(s: string)
    ensures BlockLength(s) ==
      if |s| < 2 then None
      else if s[0] == '*' && s[1] == '/' then Some(2)
      else match BlockLength(s[1..]) case None => None case Some(n) => Some(1 + n)
  {
  }

  lemma NextOrBehind(s: string)
    ensures var t := Grammar.ReadToken(s); NextToken(s) == if t.kind == Comment then NextToken(t.rest) else t
  {
  }

  lemma ClosingBracket(s: string)
    requires Grammar.SkipSpaces(s) != [] && Grammar.SkipSpaces(s)[0] == ']'
    ensures var ahead := Grammar.SkipSpaces(s);
      Grammar.ReadToken(ahead) == Token(ArrayEnd, "]", ahead[1..])
  {
    var ahead := Grammar.SkipSpaces(s);
    assert Grammar.SkipSpaces(ahead) == ahead;
  }

  /** Characters that make a number token a double: a dot, an exponent, a plus, or a minus inside. */
  predicate Fractional(text: string, i: int)
    requires 0 <= i < |text|
  {
    text[i] == '.' || text[i] == 'e' || text[i] == 'E' || text[i] == '+' || (text[i] == '-' && i != 0)
  }

  lemma NotAllDigits(text: string)
    requires IsNumber(text) && exists i :: 0 <= i < |text| && Fractional(text, i)
    ensures !Decimal.AllDigits(if text[0] == '-' then text[1..] else text)
  {
    var i :| 0 <= i < |text| && Fractional(text, i);
    if text[0] == '-' {
      assert text[1..][i - 1] == text[i];
    }
  }

  lemma PlainDigits(text: string)
    requires IsNumber(text) && forall i :: 0 <= i < |text| ==> !Fractional(text, i)
    ensures Decimal.AllDigits(if text[0] == '-' then text[1..] else text)
  {
    if text[0] == '-' {
      forall i | 0 <= i < |text[1..]| ensures Decimal.IsDigit(text[1..][i]) {
        assert !Fractional(text, i + 1);
      }
    } else {
      forall i | 0 <= i < |text| ensures Decimal.IsDigit(text[i]) {
        assert !Fractional(text, i);
      }
    }
  }

  lemma PrependNothing(tail: Option<string>)
    ensures Prepend([], tail) == tail
  {
    if tail.Some? {
      assert [] + tail.value == tail.value;
    }
  }

  lemma PrependTwice(a: string, b: string, tail: Option<string>)
    ensures Prepend(a, Prepend(b, tail)) == Prepend(a + b, tail)
  {
    if tail.Some? {
      assert a + (b + tail.value) == a + b + tail.value;
    }
  }

  lemma {:induction false} NoHexNumber(s: string, k: nat, n: nat)
    requires k <= n <= |s| && HexNumber(s, k) == None
    ensures HexNumber(s, n) == None
    decreases n - k
  {
    if k < n {
      NoHexNumber(s, k + 1, n);
    }
  }
}
