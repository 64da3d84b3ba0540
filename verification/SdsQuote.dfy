/** Quoting of byte strings and splitting of argument lines (redis/sds.c), in the C locale. */
module SdsQuote {
  import opened Common

  predicate IsBytes(s: string) { forall i :: 0 <= i < |s| ==> s[i] as int < 256 }

  /** What a C string can hold: no byte is the terminator. */
  predicate NoNul(s: string) { forall i :: 0 <= i < |s| ==> s[i] != '\0' }

  predicate IsSpace(c: char) { c == ' ' || 9 <= c as int <= 13 }

  predicate IsPrint(c: char) { ' ' <= c <= '~' }

  predicate IsHexDigit(c: char) { '0' <= c <= '9' || 'a' <= c <= 'f' || 'A' <= c <= 'F' }

  function HexDigitToInt(c: char): (d: int)
    ensures 0 <= d < 16
  {
    if '0' <= c <= '9' then c as int - '0' as int
    else if 'a' <= c <= 'f' then c as int - 'a' as int + 10
    else if 'A' <= c <= 'F' then c as int - 'A' as int + 10
    else 0
  }

  /** One lower-case digit of "%02x". */
  function HexChar(d: int): (c: char)
    requires 0 <= d < 16
    ensures IsHexDigit(c) && HexDigitToInt(c) == d
  {
    if d < 10 then '0' + d as char else 'a' + (d - 10) as char
  }

  // ---------- sdscatrepr ----------

  const BELL: char := 7 as char
  const BACKSPACE: char := 8 as char

  function Escape(c: char): string
    requires c as int < 256
  {
    if c == '\\' || c == '"' then ['\\', c]
    else if c == '\n' then "\\n"
    else if c == '\r' then "\\r"
    else if c == '\t' then "\\t"
    else if c == BELL then "\\a"
    else if c == BACKSPACE then "\\b"
    else if IsPrint(c) then [c]
    else ['\\', 'x', HexChar(c as int / 16), HexChar(c as int % 16)]
  }

  function EscapeAll(s: string): string
    requires IsBytes(s)
  {
    if s == "" then "" else Escape(s[0]) + EscapeAll(s[1..])
  }

  function Repr(s: string): string
    requires IsBytes(s)
  {
    "\"" + EscapeAll(s) + "\""
  }

  lemma {:induction false} EscapeAllAppend(s: string, c: char)
    requires IsBytes(s) && c as int < 256
    ensures EscapeAll(s + [c]) == EscapeAll(s) + Escape(c)
    decreases |s|
  {
    if s == "" {
      assert s + [c] == [c];
      assert EscapeAll([c]) == Escape(c) + EscapeAll([c][1..]);
    } else {
      EscapeAllAppend(s[1..], c);
      assert (s + [c])[1..] == s[1..] + [c];
    }
  }

  lemma Behind(a: string, b: string, c: string)
    ensures a + (b + c) == a + b + c
  {
  }

  method CatRepr(s: string, p: string) returns (r: string)
    requires IsBytes(p)
    ensures r == s + Repr(p)
  {
    r := s + "\"";
    var i := 0;
    while i < |p|
      invariant 0 <= i <= |p| && r == s + "\"" + EscapeAll(p[..i])
    {
      hide EscapeAll, HexChar;
      var c := p[i];
      assert p[..i + 1] == p[..i] + [c];
      EscapeAllAppend(p[..i], c);
      Behind(s + "\"", EscapeAll(p[..i]), Escape(c));
      var e;
      if c == '\\' || c == '"' {
        e := ['\\', c];
      } else if c == '\n' {
        e := "\\n";
      } else if c == '\r' {
        e := "\\r";
      } else if c == '\t' {
        e := "\\t";
      } else if c == BELL {
        e := "\\a";
      } else if c == BACKSPACE {
        e := "\\b";
      } else if IsPrint(c) {
        e := [c];
      } else {
        e := ['\\', 'x', HexChar(c as int / 16), HexChar(c as int % 16)];
      }
      r := r + e;
      i := i + 1;
    }
    assert p[..|p|] == p;
    r := r + "\"";
  }

  // ---------- sdssplitargs ----------

  datatype Mode = Plain | InDouble | InSingle

  function SkipBlanks(s: string): (r: string)
    ensures |r| <= |s| && (r != "" ==> !IsSpace(r[0]))
  {
    if s != "" && IsSpace(s[0]) then SkipBlanks(s[1..]) else s
  }

  function Unescape(c: char): char {
    if c == 'n' then '\n' else if c == 'r' then '\r' else if c == 't' then '\t'
    else if c == 'b' then BACKSPACE else if c == 'a' then BELL else c
  }

  predicate HexEscape(s: string) {
    |s| >= 4 && s[0] == '\\' && s[1] == 'x' && IsHexDigit(s[2]) && IsHexDigit(s[3])
  }

  function HexByte(s: string): char
    requires |s| >= 4
  {
    (HexDigitToInt(s[2]) * 16 + HexDigitToInt(s[3])) as char
  }

  /** A closing quote must be followed by a space or by nothing. */
  predicate ClosesWell(s: string)
    requires s != ""
  {
    |s| == 1 || IsSpace(s[1])
  }

  /** Reads one argument; yields it and the rest of the line, or nothing for a quoting error. */
  function ReadToken(s: string, mode: Mode, current: string): (r: Option<(string, string)>)
    ensures r.Some? ==> |r.value.1| <= |s| && (s != "" ==> |r.value.1| < |s|)
    decreases |s|
  {
    match mode
    case InDouble =>
      if HexEscape(s) then ReadToken(s[4..], mode, current + [HexByte(s)])
      else if |s| >= 2 && s[0] == '\\' then ReadToken(s[2..], mode, current + [Unescape(s[1])])
      else if s == "" then None
      else if s[0] == '"' then if ClosesWell(s) then Some((current, s[1..])) else None
      else ReadToken(s[1..], mode, current + [s[0]])
    case InSingle =>
      if |s| >= 2 && s[0] == '\\' && s[1] == '\'' then ReadToken(s[2..], mode, current + ['\''])
      else if s == "" then None
      else if s[0] == '\'' then if ClosesWell(s) then Some((current, s[1..])) else None
      else ReadToken(s[1..], mode, current + [s[0]])
    case Plain =>
      if s == "" then Some((current, s))
      else if s[0] == ' ' || s[0] == '\n' || s[0] == '\r' || s[0] == '\t' then Some((current, s[1..]))
      else if s[0] == '"' then ReadToken(s[1..], InDouble, current)
      else if s[0] == '\'' then ReadToken(s[1..], InSingle, current)
      else ReadToken(s[1..], mode, current + [s[0]])
  }

  function Prefixed(token: string, r: Option<seq<string>>): Option<seq<string>> {
    if r.None? then None else Some([token] + r.value)
  }

  function Continued(vector: seq<string>, r: Option<seq<string>>): Option<seq<string>> {
    if r.None? then None else Some(vector + r.value)
  }

  lemma ContinuedFromNone(r: Option<seq<string>>)
    ensures Continued([], r) == r
  {
    if r.Some? {
      assert [] + r.value == r.value;
    }
  }

  lemma ContinuedNext(vector: seq<string>, token: string, r: Option<seq<string>>)
    ensures Continued(vector, Prefixed(token, r)) == Continued(vector + [token], r)
  {
    if r.Some? {
      assert vector + ([token] + r.value) == (vector + [token]) + r.value;
    }
  }

  function Split(s: string): Option<seq<string>>
    decreases |s|
  {
    var t := SkipBlanks(s);
    if t == "" then Some([])
    else
      var token := ReadToken(t, Plain, "");
      if token.None? then None else Prefixed(token.value.0, Split(token.value.1))
  }

  /** The character at p, or the terminator. */
  function At(line: string, p: nat): char {
    if p < |line| then line[p] else '\0'
  }

  method SplitArgs(line: string) returns (r: Option<seq<string>>)
    requires NoNul(line)
    ensures r == Split(line)
  {
    var p := 0;
    var vector: seq<string> := [];
    assert line[0..] == line;
    ContinuedFromNone(Split(line));
    while true
      invariant p <= |line|
      invariant Split(line) == Continued(vector, Split(line[p..]))
      decreases |line| - p
    {
      ghost var before := line[p..];
      while p < |line| && IsSpace(line[p])
        invariant p <= |line| && SkipBlanks(line[p..]) == SkipBlanks(before) && |line[p..]| <= |before|
      {
        assert line[p..][1..] == line[p + 1..];
        p := p + 1;
      }
      assert SkipBlanks(before) == line[p..];
      if At(line, p) == '\0' {
        assert vector + [] == vector;
        return Some(vector);
      }
      ghost var t := line[p..];
      var token, next := NextToken(line, p);
      if token.None? {
        return None;
      }
      assert Split(before) == Prefixed(token.value, Split(line[next..]));
      ContinuedNext(vector, token.value, Split(line[next..]));
      vector := vector + [token.value];
      p := next;
    }
  }

  /** What ReadToken does with the next byte outside quotes. */
  lemma PlainStep(line: string, p: nat, current: string)
    requires NoNul(line) && p <= |line|
    ensures var c, r := At(line, p), ReadToken(line[p..], Plain, current);
      if c == '\0' then (p == |line| && r == Some((current, line[p..])))
      else if c == ' ' || c == '\n' || c == '\r' || c == '\t' then (p < |line| && r == Some((current, line[p + 1..])))
      else if c == '"' then (p < |line| && r == ReadToken(line[p + 1..], InDouble, current))
      else if c == '\'' then (p < |line| && r == ReadToken(line[p + 1..], InSingle, current))
      else (p < |line| && r == ReadToken(line[p + 1..], Plain, current + [c]))
  {
    Drops(line, p);
  }

  /** The inner loop: `inq` and `insq` are the mode, `done` ends the token. */
  method NextToken(line: string, p0: nat) returns (token: Option<string>, p: nat)
    requires NoNul(line) && p0 < |line|
    ensures p <= |line|
    ensures var r := ReadToken(line[p0..], Plain, "");
      if token.Some? then p0 < p && r == Some((token.value, line[p..])) else r == None
  {
    hide ReadToken;
    var inq, insq, done := false, false, false;
    var current := "";
    p := p0;
    while !done
      invariant p0 <= p <= |line| && !(inq && insq)
      invariant !done ==> var mode := if inq then InDouble else if insq then InSingle else Plain;
        ReadToken(line[p0..], Plain, "") == ReadToken(line[p..], mode, current)
      invariant done ==> ReadToken(line[p0..], Plain, "") == Some((current, line[p..])) && p0 < p
      decreases !done, |line| - p
    {
      var c := At(line, p);
      PlainStep(line, p, current);
      if inq || insq {
        var ok;
        if inq {
          ok, done, current, p := InsideDouble(line, p, current);
        } else {
          ok, done, current, p := InsideSingle(line, p, current);
        }
        if !ok {
          return None, p;
        }
      } else if c == ' ' || c == '\n' || c == '\r' || c == '\t' || c == '\0' {
        done := true;
      } else if c == '"' {
        inq := true;
      } else if c == '\'' {
        insq := true;
      } else {
        current := current + [c];
      }
      if At(line, p) != '\0' {
        p := p + 1;
      }
    }
    token := Some(current);
  }

  /** One turn of it inside double quotes, up to the step to the next byte. */
  method InsideDouble(line: string, p0: nat, current0: string) returns (ok: bool, done: bool, current: string, p: nat)
    requires NoNul(line) && p0 <= |line|
    ensures p0 <= p <= |line| && (ok ==> p < |line|)
    ensures var r := ReadToken(line[p0..], InDouble, current0);
      if !ok then r == None
      else if done then r == Some((current, line[p + 1..]))
      else r == ReadToken(line[p + 1..], InDouble, current)
  {
    hide HexDigitToInt, IsHexDigit, IsSpace, Unescape;
    TerminatorIsPlain();
    ok, done, current, p := true, false, current0, p0;
    var c := At(line, p);
    Drops(line, p);
    if c == '\\' && At(line, p + 1) == 'x' && IsHexDigit(At(line, p + 2)) && IsHexDigit(At(line, p + 3)) {
      current := current + [(HexDigitToInt(At(line, p + 2)) * 16 + HexDigitToInt(At(line, p + 3))) as char];
      p := p + 3;
    } else if c == '\\' && At(line, p + 1) != '\0' {
      p := p + 1;
      current := current + [Unescape(line[p])];
    } else if c == '"' {
      if At(line, p + 1) != '\0' && !IsSpace(At(line, p + 1)) {
        ok := false;
      }
      done := true;
    } else if c == '\0' {
      ok := false;
    } else {
      current := current + [c];
    }
  }

  /** The same inside single quotes. */
  method InsideSingle(line: string, p0: nat, current0: string) returns (ok: bool, done: bool, current: string, p: nat)
    requires NoNul(line) && p0 <= |line|
    ensures p0 <= p <= |line| && (ok ==> p < |line|)
    ensures var r := ReadToken(line[p0..], InSingle, current0);
      if !ok then r == None
      else if done then r == Some((current, line[p + 1..]))
      else r == ReadToken(line[p + 1..], InSingle, current)
  {
    hide IsSpace;
    ok, done, current, p := true, false, current0, p0;
    var c := At(line, p);
    Drops(line, p);
    if c == '\\' && At(line, p + 1) == '\'' {
      p := p + 1;
      current := current + ['\''];
    } else if c == '\'' {
      if At(line, p + 1) != '\0' && !IsSpace(At(line, p + 1)) {
        ok := false;
      }
      done := true;
    } else if c == '\0' {
      ok := false;
    } else {
      current := current + [c];
    }
  }

  lemma TerminatorIsPlain()
    ensures !IsHexDigit('\0') && !IsSpace('\0')
  {
  }

  lemma Drops(line: string, p: nat)
    requires p <= |line|
    ensures forall k :: 0 <= k < |line| - p ==> line[p..][k] == line[p + k]
    ensures p + 1 <= |line| ==> line[p..][1..] == line[p + 1..]
    ensures p + 2 <= |line| ==> line[p..][2..] == line[p + 2..]
    ensures p + 4 <= |line| ==> line[p..][4..] == line[p + 4..]
  {
  }

  // ---------- the round trip ----------

  /** An escaped byte, read inside double quotes, is that byte. */
  lemma ReadEscape(c: char, t: string, current: string)
    requires c as int < 256
    ensures ReadToken(Escape(c) + t, InDouble, current) == ReadToken(t, InDouble, current + [c])
  {
    var s := Escape(c) + t;
    if c == '\\' || c == '"' || c == '\n' || c == '\r' || c == '\t' || c == BELL || c == BACKSPACE {
      assert |Escape(c)| == 2 && s[0] == '\\' && s[1] == Escape(c)[1] && s[2..] == t;
      assert Unescape(s[1]) == c && s[1] != 'x';
    } else if IsPrint(c) {
      assert s[0] == c && s[1..] == t;
    } else {
      assert s[0] == '\\' && s[1] == 'x' && s[2] == HexChar(c as int / 16) && s[3] == HexChar(c as int % 16);
      assert HexByte(s) == c;
      assert s[4..] == t;
    }
  }

  lemma {:induction false} ReadEscapes(w: string, rest: string, current: string)
    requires IsBytes(w) && (rest == "" || IsSpace(rest[0]))
    ensures ReadToken(EscapeAll(w) + "\"" + rest, InDouble, current) == Some((current + w, rest))
    decreases |w|
  {
    hide Escape, IsBytes;
    if w == "" {
      ClosingQuote(rest, current);
    } else {
      TailIsBytes(w);
      var t := EscapeAll(w[1..]) + "\"" + rest;
      Regroup(Escape(w[0]), EscapeAll(w[1..]), rest);
      ReadEscape(w[0], t, current);
      ReadEscapes(w[1..], rest, current + [w[0]]);
      assert current + [w[0]] + w[1..] == current + w;
    }
  }

  lemma TailIsBytes(w: string)
    requires IsBytes(w) && w != ""
    ensures IsBytes(w[1..]) && w[0] as int < 256
  {
  }

  lemma ClosingQuote(rest: string, current: string)
    requires rest == "" || IsSpace(rest[0])
    ensures ReadToken("" + "\"" + rest, InDouble, current) == Some((current + "", rest))
  {
    var s := "" + "\"" + rest;
    assert current + "" == current;
    assert s[0] == '"' && s[1..] == rest && ClosesWell(s);
  }

  lemma Regroup(first: string, more: string, rest: string)
    ensures first + more + "\"" + rest == first + (more + "\"" + rest)
  {
  }

  function Line(ws: seq<string>): string
    requires forall i :: 0 <= i < |ws| ==> IsBytes(ws[i])
  {
    if ws == [] then "" else if |ws| == 1 then Repr(ws[0]) else Repr(ws[0]) + " " + Line(ws[1..])
  }

  /** Quoting any byte strings, joining them with single spaces and splitting the line gives them back. */
  lemma {:induction false} QuotingRoundTrip(ws: seq<string>)
    requires forall i :: 0 <= i < |ws| ==> IsBytes(ws[i])
    ensures Split(Line(ws)) == Some(ws)
    decreases |ws|
  {
    hide Repr, ReadToken, SkipBlanks, Split, IsBytes;
    NothingToSplit();
    if |ws| == 1 {
      SplitQuoted(ws[0], "");
      assert Repr(ws[0]) + "" == Repr(ws[0]);
      assert ws == [ws[0]] + [];
    } else if ws != [] {
      var rest := " " + Line(ws[1..]);
      BlankIsSpace(Line(ws[1..]));
      SplitQuoted(ws[0], rest);
      Behind(Repr(ws[0]), " ", Line(ws[1..]));
      QuotingRoundTrip(ws[1..]);
      SplitAfterBlank(Line(ws[1..]));
      assert ws == [ws[0]] + ws[1..];
    }
  }

  lemma NothingToSplit()
    ensures Split("") == Some([])
  {
  }

  lemma BlankIsSpace(s: string)
    ensures IsSpace((" " + s)[0])
  {
  }

  lemma SplitAfterBlank(s: string)
    ensures Split(" " + s) == Split(s)
  {
    assert (" " + s)[1..] == s;
    assert SkipBlanks(" " + s) == SkipBlanks(s);
  }

  lemma SplitQuoted(w: string, rest: string)
    requires IsBytes(w) && (rest == "" || IsSpace(rest[0]))
    ensures Split(Repr(w) + rest) == Prefixed(w, Split(rest))
  {
    hide ReadToken, EscapeAll;
    var s := Repr(w) + rest;
    assert s[0] == '"' && s[1..] == EscapeAll(w) + "\"" + rest;
    ReadEscapes(w, rest, "");
    assert "" + w == w;
    assert SkipBlanks(s) == s;
    OpeningQuote(s);
  }

  /** A token that starts with a double quote is read in that mode. */
  lemma OpeningQuote(s: string)
    requires s != "" && s[0] == '"'
    ensures ReadToken(s, Plain, "") == ReadToken(s[1..], InDouble, "")
  {
  }

  // ---------- a quoted line is a C string ----------

  lemma {:induction false} EscapesHaveNoNul(s: string)
    requires IsBytes(s)
    ensures NoNul(EscapeAll(s))
  {
    if s != "" {
      assert NoNul(Escape(s[0])) by {
        EscapeHasNoNul(s[0]);
      }
      EscapesHaveNoNul(s[1..]);
    }
  }

  lemma EscapeHasNoNul(c: char)
    requires c as int < 256
    ensures NoNul(Escape(c))
  {
    var high, low := HexChar(c as int / 16), HexChar(c as int % 16);
    assert IsHexDigit(high) && IsHexDigit(low);
  }

  /** Whatever bytes are quoted, the line has none that ends a C string. */
  lemma {:induction false} LineHasNoNul(ws: seq<string>)
    requires forall i :: 0 <= i < |ws| ==> IsBytes(ws[i])
    ensures NoNul(Line(ws))
  {
    hide EscapeAll, IsBytes;
    if ws != [] {
      EscapesHaveNoNul(ws[0]);
      if |ws| > 1 {
        LineHasNoNul(ws[1..]);
      }
    }
  }

  lemma {:induction false} LineAppend(ws: seq<string>, w: string)
    requires IsBytes(w) && forall i :: 0 <= i < |ws| ==> IsBytes(ws[i])
    ensures Line(ws + [w]) == if ws == [] then Repr(w) else Line(ws) + " " + Repr(w)
  {
    hide Repr, IsBytes;
    var all := ws + [w];
    if ws == [] {
      assert all == [w];
    } else {
      LineAppend(ws[1..], w);
      assert all[1..] == ws[1..] + [w];
      if |ws| > 1 {
        BlankGroups(Repr(ws[0]), Line(ws[1..]), Repr(w));
      }
    }
  }

  lemma BlankGroups(a: string, b: string, c: string)
    ensures a + " " + (b + " " + c) == a + " " + b + " " + c
  {
  }

  /** The code undoes its own quoting: sdscatrepr of each word, single spaces between them, sdssplitargs. */
  method QuoteAndSplit(ws: seq<string>) returns (r: Option<seq<string>>)
    requires forall i :: 0 <= i < |ws| ==> IsBytes(ws[i])
    ensures r == Some(ws)
  {
    hide Line, Repr, IsBytes, NoNul, Split;
    var line := "";
    NoWords(ws);
    for i := 0 to |ws|
      invariant line == Line(ws[..i])
    {
      assert ws[..i + 1] == ws[..i] + [ws[i]];
      LineAppend(ws[..i], ws[i]);
      if i > 0 {
        line := line + " ";
      }
      line := CatRepr(line, ws[i]);
    }
    assert ws[..|ws|] == ws;
    LineHasNoNul(ws);
    QuotingRoundTrip(ws);
    r := SplitArgs(line);
  }

  lemma NoWords(ws: seq<string>)
    ensures Line(ws[..0]) == "" && forall w {:trigger IsBytes(w)} :: IsBytes(w) ==> "" + Repr(w) == Repr(w)
  {
    hide EscapeAll;
  }
}
