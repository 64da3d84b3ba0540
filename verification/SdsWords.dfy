/** Argument lines as people write them: bare words, both kinds of quotes, any blanks between (sdssplitargs of redis/sds.c). */
module SdsWords {
  import opened Common
  import opened SdsQuote

  datatype Quote = Bare | Double | Single

  /** A word with a bare part, a quoted part behind it if there is a quote, and the blanks that follow. */
  datatype Written = Written(bare: string, quote: Quote, inner: string, gap: string)

  /** Inside single quotes only the quote itself needs a backslash. */
  function SingleEscaped(s: string): string {
    if s == "" then "" else SingleEscape(s[0]) + SingleEscaped(s[1..])
  }

  function SingleEscape(c: char): string { if c == '\'' then "\\'" else [c] }

  function Text(w: Written): string
    requires IsBytes(w.inner)
  {
    match w.quote
    case Bare => w.bare
    case Double => w.bare + "\"" + EscapeAll(w.inner) + "\""
    case Single => w.bare + "'" + SingleEscaped(w.inner) + "'"
  }

  function Meaning(w: Written): string { if w.quote == Bare then w.bare else w.bare + w.inner }

  /** The blanks that end a bare word; a vertical tab or a form feed does not. */
  predicate EndsBare(c: char) { c == ' ' || c == '\n' || c == '\r' || c == '\t' }

  predicate IsBare(s: string) { forall i :: 0 <= i < |s| ==> !EndsBare(s[i]) && s[i] != '"' && s[i] != '\'' }

  predicate IsGap(g: string) { (g != "" ==> EndsBare(g[0])) && forall i :: 0 <= i < |g| ==> IsSpace(g[i]) }

  predicate IsWritten(w: Written) {
    && IsBytes(w.inner) && IsBare(w.bare) && (w.bare != "" ==> !IsSpace(w.bare[0])) && IsGap(w.gap)
    && (w.quote == Bare ==> w.bare != "")
    && (w.quote == Single && w.inner != "" ==> w.inner[|w.inner| - 1] != '\\')
  }

  predicate AreWritten(ws: seq<Written>) {
    && (forall i :: 0 <= i < |ws| ==> IsBytes(ws[i].inner) && IsWritten(ws[i]))
    && forall i :: 0 <= i < |ws| - 1 ==> ws[i].gap != ""
  }

  function LineOf(ws: seq<Written>): string
    requires forall i :: 0 <= i < |ws| ==> IsBytes(ws[i].inner)
  {
    if ws == [] then "" else Text(ws[0]) + (ws[0].gap + LineOf(ws[1..]))
  }

  function Meanings(ws: seq<Written>): seq<string> { if ws == [] then [] else [Meaning(ws[0])] + Meanings(ws[1..]) }

  // ---------- the parts of a word ----------

  lemma {:induction false} BarePart(b: string, t: string, current: string)
    requires IsBare(b)
    ensures ReadToken(b + t, Plain, current) == ReadToken(t, Plain, current + b)
    decreases |b|
  {
    if b == "" {
      assert b + t == t && current + b == current;
    } else {
      BarePart(b[1..], t, current + [b[0]]);
      assert (b + t)[1..] == b[1..] + t;
      assert current + [b[0]] + b[1..] == current + b;
    }
  }

  lemma SingleByte(c: char, t: string, current: string)
    requires c != '\\' || (t != "" && t[0] != '\'')
    ensures ReadToken(SingleEscape(c) + t, InSingle, current) == ReadToken(t, InSingle, current + [c])
  {
    var s := SingleEscape(c) + t;
    if c == '\'' {
      assert s[0] == '\\' && s[1] == '\'' && s[2..] == t;
    } else {
      assert s[0] == c && s[1..] == t;
    }
  }

  lemma {:induction false} SinglePart(s: string, rest: string, current: string)
    requires s != "" ==> s[|s| - 1] != '\\'
    requires rest == "" || IsSpace(rest[0])
    ensures ReadToken(SingleEscaped(s) + ("'" + rest), InSingle, current) == Some((current + s, rest))
    decreases |s|
  {
    hide ReadToken, SingleEscaped, SingleEscape;
    if s == "" {
      NothingEscaped(rest);
      assert current + "" == current;
      SingleEnds(rest, current);
    } else {
      var t := SingleEscaped(s[1..]) + ("'" + rest);
      EscapedFirst(s, rest);
      if s[0] == '\\' {
        EscapedStarts(s[1..]);
      }
      SingleByte(s[0], t, current);
      SinglePart(s[1..], rest, current + [s[0]]);
      NextByte(current, s);
    }
  }

  lemma NothingEscaped(rest: string)
    ensures SingleEscaped("") + ("'" + rest) == "'" + rest
  {
  }

  lemma EscapedFirst(s: string, rest: string)
    requires s != ""
    ensures SingleEscaped(s) + ("'" + rest) == SingleEscape(s[0]) + (SingleEscaped(s[1..]) + ("'" + rest))
  {
    hide SingleEscape;
  }

  lemma NextByte(current: string, s: string)
    requires s != ""
    ensures current + [s[0]] + s[1..] == current + s
    ensures |s| > 1 ==> current + [s[0]] + s[1..][..|s| - 2] == current + s[..|s| - 1]
  {
  }

  lemma SingleEnds(rest: string, current: string)
    requires rest == "" || IsSpace(rest[0])
    ensures ReadToken("'" + rest, InSingle, current) == Some((current, rest))
  {
    assert ("'" + rest)[1..] == rest;
  }

  lemma EscapedStarts(s: string)
    requires s != ""
    ensures SingleEscaped(s) != "" && SingleEscaped(s)[0] != '\''
  {
  }

  /** A word in front of blanks, or at the end of the line, is one token with its meaning. */
  lemma WordIsToken(w: Written, rest: string)
    requires IsWritten(w) && (rest == "" || EndsBare(rest[0]))
    ensures ReadToken(Text(w) + rest, Plain, "") ==
      Some((Meaning(w), if rest == "" || w.quote != Bare then rest else rest[1..]))
  {
    hide ReadToken, EscapeAll, SingleEscaped, IsBytes;
    assert "" + w.bare == w.bare;
    match w.quote
    case Bare =>
      BarePart(w.bare, rest, "");
      BareEnd(rest, w.bare);
    case Double =>
      var inside := EscapeAll(w.inner) + "\"" + rest;
      assert Text(w) + rest == w.bare + ("\"" + inside);
      BarePart(w.bare, "\"" + inside, "");
      QuoteOpens("\"" + inside, w.bare);
      ReadEscapes(w.inner, rest, w.bare);
    case Single =>
      var inside := SingleEscaped(w.inner) + ("'" + rest);
      assert Text(w) + rest == w.bare + ("'" + inside);
      BarePart(w.bare, "'" + inside, "");
      QuoteOpens("'" + inside, w.bare);
      SinglePart(w.inner, rest, w.bare);
  }

  lemma BareEnd(rest: string, current: string)
    requires rest == "" || EndsBare(rest[0])
    ensures ReadToken(rest, Plain, current) == Some((current, if rest == "" then rest else rest[1..]))
  {
  }

  lemma QuoteOpens(s: string, current: string)
    requires s != "" && (s[0] == '"' || s[0] == '\'')
    ensures ReadToken(s, Plain, current) == ReadToken(s[1..], if s[0] == '"' then InDouble else InSingle, current)
  {
  }

  lemma {:induction false} GapSkipped(g: string, s: string)
    requires forall i :: 0 <= i < |g| ==> IsSpace(g[i])
    ensures SkipBlanks(g + s) == SkipBlanks(s)
    decreases |g|
  {
    if g == "" {
      assert g + s == s;
    } else {
      GapSkipped(g[1..], s);
      assert (g + s)[1..] == g[1..] + s;
    }
  }

  lemma SplitBehindGap(g: string, s: string)
    requires forall i :: 0 <= i < |g| ==> IsSpace(g[i])
    ensures Split(g + s) == Split(s)
  {
    hide ReadToken, SkipBlanks;
    GapSkipped(g, s);
  }

  lemma WordStarts(w: Written, rest: string)
    requires IsWritten(w)
    ensures Text(w) != "" && SkipBlanks(Text(w) + rest) == Text(w) + rest
  {
    hide EscapeAll, SingleEscaped, IsBytes;
    assert w.bare != "" ==> (Text(w) + rest)[0] == w.bare[0];
  }

  /** Splitting a line gives the meanings of its words, however they are quoted and spaced. */
  lemma {:induction false} SplitWritten(lead: string, ws: seq<Written>)
    requires AreWritten(ws) && forall i :: 0 <= i < |lead| ==> IsSpace(lead[i])
    ensures Split(lead + LineOf(ws)) == Some(Meanings(ws))
    decreases |ws|
  {
    hide Text, Meaning, ReadToken, SkipBlanks, IsWritten, Split;
    SplitBehindGap(lead, LineOf(ws));
    if ws == [] {
      NothingToSplit();
    } else {
      var w, more := ws[0], LineOf(ws[1..]);
      var rest := w.gap + more;
      GapOf(ws);
      SplitWritten(w.gap, ws[1..]);
      WordIsToken(w, rest);
      WordStarts(w, rest);
      SplitOnce(Text(w) + rest);
      if rest != "" && w.quote == Bare {
        FirstBlank(rest);
      }
    }
  }

  lemma GapOf(ws: seq<Written>)
    requires ws != [] && AreWritten(ws)
    ensures AreWritten(ws[1..]) && IsWritten(ws[0]) && IsBytes(ws[0].inner) && IsGap(ws[0].gap)
    ensures var rest := ws[0].gap + LineOf(ws[1..]); rest == "" || EndsBare(rest[0])
  {
    hide Text;
    assert forall i :: 0 <= i < |ws[1..]| ==> ws[1..][i] == ws[i + 1];
  }

  lemma FirstBlank(rest: string)
    requires rest != "" && EndsBare(rest[0])
    ensures Split(rest) == Split(rest[1..])
  {
    hide ReadToken;
    assert SkipBlanks(rest) == SkipBlanks(rest[1..]);
  }

  lemma SplitOnce(s: string)
    requires s != "" && SkipBlanks(s) == s
    ensures var token := ReadToken(s, Plain, "");
      Split(s) == if token.None? then None else Prefixed(token.value.0, Split(token.value.1))
  {
    hide ReadToken, SkipBlanks;
  }

  // ---------- what cannot be written ----------

  /** A string in single quotes is read back if and only if it does not end in a backslash. */
  lemma SingleQuotesExactly(s: string, rest: string)
    requires rest == "" || IsSpace(rest[0])
    ensures ReadToken("'" + (SingleEscaped(s) + ("'" + rest)), Plain, "") == Some((s, rest))
      <==> s == "" || s[|s| - 1] != '\\'
  {
    hide ReadToken, SingleEscaped;
    var inside := SingleEscaped(s) + ("'" + rest);
    assert ("'" + inside)[1..] == inside;
    QuoteOpens("'" + inside, "");
    if s == "" || s[|s| - 1] != '\\' {
      SinglePart(s, rest, "");
      assert "" + s == s;
    } else {
      TrailingBackslash(s, rest, "");
      ShorterRest(rest, InSingle, "" + s[..|s| - 1] + ['\'']);
    }
  }

  /** The closing quote is then taken for an escaped one, and the reading goes on behind it. */
  lemma {:induction false} TrailingBackslash(s: string, rest: string, current: string)
    requires s != "" && s[|s| - 1] == '\\'
    ensures ReadToken(SingleEscaped(s) + ("'" + rest), InSingle, current) == ReadToken(rest, InSingle, current + s[..|s| - 1] + ['\''])
    decreases |s|
  {
    hide ReadToken, SingleEscaped, SingleEscape;
    EscapedFirst(s, rest);
    if |s| == 1 {
      assert s[1..] == "";
      BackslashAlone(rest);
      EscapedQuote(rest, current);
      assert current + s[..0] + ['\''] == current + ['\''];
    } else {
      EscapedStarts(s[1..]);
      SingleByte(s[0], SingleEscaped(s[1..]) + ("'" + rest), current);
      TrailingBackslash(s[1..], rest, current + [s[0]]);
      NextByte(current, s);
    }
  }

  lemma BackslashAlone(rest: string)
    ensures SingleEscape('\\') + (SingleEscaped("") + ("'" + rest)) == "\\'" + rest
  {
    NothingEscaped(rest);
    assert SingleEscape('\\') + ("'" + rest) == "\\'" + rest;
  }

  lemma EscapedQuote(rest: string, current: string)
    ensures ReadToken("\\'" + rest, InSingle, current) == ReadToken(rest, InSingle, current + ['\''])
  {
    var t := "\\'" + rest;
    assert t[0] == '\\' && t[1] == '\'' && t[2..] == rest;
  }

  /** Inside quotes a token takes at least the closing quote. */
  lemma ShorterRest(s: string, mode: Mode, current: string)
    requires mode != Plain
    ensures ReadToken(s, mode, current).Some? ==> |ReadToken(s, mode, current).value.1| < |s|
  {
  }

  // ---------- escapes inside double quotes ----------

  const LOWER_HEX := "0123456789abcdef"
  const UPPER_HEX := "0123456789ABCDEF"

  lemma HexDigitsExactly(c: char, d: nat)
    requires d < 16
    ensures IsHexDigit(c) && HexDigitToInt(c) == d <==> c == LOWER_HEX[d] || c == UPPER_HEX[d]
  {
  }

  /** A backslash, x and two hexadecimal digits of either case stand for their byte. */
  lemma HexPair(high: nat, low: nat, h: char, l: char, t: string, current: string)
    requires high < 16 && low < 16
    requires (h == LOWER_HEX[high] || h == UPPER_HEX[high]) && (l == LOWER_HEX[low] || l == UPPER_HEX[low])
    ensures ReadToken("\\x" + [h, l] + t, InDouble, current) == ReadToken(t, InDouble, current + [(16 * high + low) as char])
  {
    hide HexDigitToInt, IsHexDigit;
    HexDigitsExactly(h, high);
    HexDigitsExactly(l, low);
    var s := "\\x" + [h, l] + t;
    assert s[0] == '\\' && s[1] == 'x' && s[2] == h && s[3] == l && s[4..] == t;
  }

  /** Any other byte behind a backslash that is no letter of an escape stands for itself. */
  lemma EscapedByte(c: char, t: string, current: string)
    requires c !in "nrtba" && (c == 'x' ==> |t| < 2 || !IsHexDigit(t[0]) || !IsHexDigit(t[1]))
    ensures ReadToken("\\" + [c] + t, InDouble, current) == ReadToken(t, InDouble, current + [c])
  {
    var s := "\\" + [c] + t;
    assert "nrtba"[0] == 'n' && "nrtba"[1] == 'r' && "nrtba"[2] == 't' && "nrtba"[3] == 'b' && "nrtba"[4] == 'a';
    assert s[0] == '\\' && s[1] == c && s[2..] == t;
    assert |s| >= 4 ==> s[2] == t[0] && s[3] == t[1];
  }

  /** The bytes that have an escape of their own, and the letters of those escapes. */
  const NAMED := "\\\"\n\r\t" + [BELL, BACKSPACE]
  const NAMES := "\\\"nrtab"

  /** A quoted byte is written as itself if it is printable and neither quote nor backslash, with the letter of its
      escape if it has one, and with two hexadecimal digits otherwise; the result is printable in any case. */
  lemma EscapesArePrintable(c: char)
    requires c as int < 256
    ensures forall i :: 0 <= i < |Escape(c)| ==> IsPrint(Escape(c)[i])
    ensures |Escape(c)| == 1 <==> IsPrint(c) && c != '\\' && c != '"'
    ensures forall k :: 0 <= k < 7 && c == NAMED[k] ==> Escape(c) == ['\\', NAMES[k]]
    ensures c !in NAMED && !IsPrint(c) ==> |Escape(c)| == 4
  {
    var high, low := HexChar(c as int / 16), HexChar(c as int % 16);
    assert IsHexDigit(high) && IsHexDigit(low);
    assert NAMED[0] == '\\' && NAMED[1] == '"' && NAMED[2] == '\n' && NAMED[3] == '\r' && NAMED[4] == '\t' && NAMED[5] == BELL
      && NAMED[6] == BACKSPACE;
  }

  /** A quote that something else follows directly is an error, and so is a missing one. */
  lemma BadQuotes(s: string, mode: Mode, current: string)
    requires mode != Plain
    ensures ReadToken("", mode, current) == None
    ensures s != "" && s[0] == (if mode == InDouble then '"' else '\'') && |s| > 1 && !IsSpace(s[1]) ==> ReadToken(s, mode, current) == None
  {
  }

  /** The code: a line of such words is split into their meanings. */
  method SplitLine(lead: string, ws: seq<Written>) returns (r: Option<seq<string>>)
    requires AreWritten(ws) && (forall i :: 0 <= i < |lead| ==> IsSpace(lead[i])) && NoNul(lead + LineOf(ws))
    ensures r == Some(Meanings(ws))
  {
    hide Split, LineOf, IsWritten;
    SplitWritten(lead, ws);
    r := SplitArgs(lead + LineOf(ws));
  }
}
