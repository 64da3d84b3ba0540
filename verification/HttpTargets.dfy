/** Which request targets and versions the parser accepts, and what it delivers for them. */
module HttpTargets {
  import opened Common
  import Decimal
  import opened HttpMachine
  import opened HttpHeaders

  // ---------- the bytes of a target ----------

  /** The printing bytes of ASCII: the codes from 33 to 126. */
  predicate Visible(c: char) { 33 <= c as int <= 126 }

  predicate AllVisible(t: string) { forall i :: 0 <= i < |t| ==> Visible(t[i]) }

  /** A host with its user and port is written with these, brackets and at signs included. */
  predicate IsServerByte(c: char) { Visible(c) && c !in "\"#/<>?\\^`{|}" }

  /** At signs must not be neighbours; the second of two is seen from the first. */
  predicate IsServerText(t: string) {
    && (forall i :: 0 <= i < |t| ==> IsServerByte(t[i]))
    && (forall i :: 0 <= i < |t| - 1 ==> !(t[i] == '@' && t[i + 1] == '@'))
  }

  /** Where the server part ends: at the first slash or question mark. */
  function ServerEnd(t: string): (k: nat)
    ensures k <= |t| && (k < |t| ==> t[k] == '/' || t[k] == '?')
    ensures forall i :: 0 <= i < k ==> t[i] != '/' && t[i] != '?'
  {
    if t == "" || t[0] == '/' || t[0] == '?' then 0 else 1 + ServerEnd(t[1..])
  }

  /** A server, and what may follow it. */
  predicate IsAuthority(t: string) { IsServerText(t[..ServerEnd(t)]) && AllVisible(t[ServerEnd(t)..]) }

  function Letters(t: string): (k: nat)
    ensures k <= |t|
  {
    if t == "" || !IsAlpha(t[0]) then 0 else 1 + Letters(t[1..])
  }

  predicate Separated(t: string) { |t| >= 3 && t[0] == ':' && t[1] == '/' && t[2] == '/' }

  /** A scheme, which is letters only, with a server behind it. */
  predicate IsAbsolute(t: string) {
    var k := Letters(t);
    k > 0 && |t| > k + 3 && Separated(t[k..]) && IsAuthority(t[k + 3..])
  }

  /** A path or an asterisk, with query and fragment. */
  predicate IsOrigin(t: string) { t != "" && (t[0] == '/' || t[0] == '*') && AllVisible(t) }

  /** The targets of a method. */
  predicate IsTarget(m: Method, t: string) {
    if m == CONNECT then t != "" && IsAuthority(t) else IsOrigin(t) || IsAbsolute(t)
  }

  // ---------- the states that its bytes lead through ----------

  function UrlState(s: State, t: string): State
    decreases |t|
  {
    if t == "" then s else UrlState(ParseUrlChar(s, t[0]), t[1..])
  }

  lemma {:induction false} DeadStays(t: string)
    ensures UrlState(Dead, t) == Dead
    decreases |t|
  {
    if t != "" {
      DeadStays(t[1..]);
    }
  }

  predicate InPath(s: State) {
    s == ReqPath || s == ReqQueryStringStart || s == ReqQueryString || s == ReqFragmentStart || s == ReqFragment
  }

  predicate InServer(s: State) { s == ReqServerStart || s == ReqServer || s == ReqServerWithAt }

  /** Path, query and fragment go on for the printing bytes and nothing else; the first question mark of a path
      starts the query, and a number sign the fragment. */
  lemma PathByte(s: State, ch: char)
    requires InPath(s)
    ensures var next := ParseUrlChar(s, ch);
      && (if Visible(ch) then InPath(next) else next == Dead)
      && (Visible(ch) && s == ReqPath ==> next == if ch == '?' then ReqQueryStringStart else if ch == '#' then ReqFragmentStart else ReqPath)
      && (Visible(ch) && (s == ReqQueryStringStart || s == ReqQueryString) ==> next == if ch == '#' then ReqFragmentStart else ReqQueryString)
      && (Visible(ch) && s == ReqFragmentStart ==> next == if ch == '#' then ReqFragmentStart else ReqFragment)
      && (Visible(ch) && s == ReqFragment ==> next == ReqFragment)
  {
    InSet(ch);
  }

  lemma InSet(ch: char)
    ensures ch in " \r\n\t" <==> ch == ' ' || ch == '\r' || ch == '\n' || ch == '\t'
  {
    var set4 := " \r\n\t";
    assert set4[0] == ' ' && set4[1] == '\r' && set4[2] == '\n' && set4[3] == '\t';
  }

  lemma {:induction false} PathExactly(s: State, t: string)
    requires InPath(s)
    ensures if AllVisible(t) then InPath(UrlState(s, t)) else UrlState(s, t) == Dead
    decreases |t|
  {
    hide ParseUrlChar;
    if t != "" {
      PathByte(s, t[0]);
      if Visible(t[0]) {
        PathExactly(ParseUrlChar(s, t[0]), t[1..]);
        assert AllVisible(t) <==> AllVisible(t[1..]);
      } else {
        DeadStays(t[1..]);
      }
    }
  }

  lemma ServerByte(s: State, ch: char)
    requires InServer(s)
    ensures var next := ParseUrlChar(s, ch);
      if ch == '/' then next == ReqPath
      else if ch == '?' then next == ReqQueryStringStart
      else if ch == '@' then next == (if s == ReqServerWithAt then Dead else ReqServerWithAt)
      else next == (if IsServerByte(ch) then ReqServer else Dead)
  {
    InSet(ch);
    UserinfoBytes(ch);
  }

  /** The bytes of a server, by their codes. */
  lemma UserinfoBytes(ch: char)
    ensures IsServerByte(ch) <==> IsUserinfoChar(ch) || ch == '[' || ch == ']' || ch == '@'
    ensures IsUserinfoChar(ch) || ch == '[' || ch == ']' ==> ch != '/' && ch != '?' && ch != '@' && ch != ' ' && ch as int != 12
  {
    var out := "\"#/<>?\\^`{|}";
    assert out[0] == '"' && out[1] == '#' && out[2] == '/' && out[3] == '<' && out[4] == '>' && out[5] == '?' && out[6] == '\\'
      && out[7] == '^' && out[8] == '`' && out[9] == '{' && out[10] == '|' && out[11] == '}';
    var marks, others := "-_.!~*'()", "%;:&=+$,";
    assert marks[0] == '-' && marks[1] == '_' && marks[2] == '.' && marks[3] == '!' && marks[4] == '~' && marks[5] == '*'
      && marks[6] == '\'' && marks[7] == '(' && marks[8] == ')';
    assert others[0] == '%' && others[1] == ';' && others[2] == ':' && others[3] == '&' && others[4] == '=' && others[5] == '+'
      && others[6] == '$' && others[7] == ',';
  }

  /** The at sign that a server state remembers is in front of t. */
  predicate IsServerRest(s: State, t: string) { IsAuthority(t) && (s == ReqServerWithAt && t != "" ==> t[0] != '@') }

  lemma {:induction false} ServerExactly(s: State, t: string)
    requires InServer(s)
    ensures var end := UrlState(s, t);
      if IsServerRest(s, t) then (if t == "" then end == s else InPath(end) || end == ReqServer || end == ReqServerWithAt)
      else end == Dead
    decreases |t|
  {
    hide ParseUrlChar, IsAuthority, IsServerByte;
    if t == "" {
      NothingIsAuthority();
    } else {
      var next := ParseUrlChar(s, t[0]);
      ServerByte(s, t[0]);
      if t[0] == '/' || t[0] == '?' {
        PathExactly(next, t[1..]);
        AuthorityEnds(t);
      } else {
        AtSignIsServerByte();
        AuthorityNext(t);
        if next == Dead {
          DeadStays(t[1..]);
        } else {
          ServerExactly(next, t[1..]);
        }
      }
    }
  }

  lemma AtSignIsServerByte()
    ensures IsServerByte('@')
  {
  }

  lemma NothingIsAuthority()
    ensures IsAuthority("")
  {
  }

  lemma AuthorityEnds(t: string)
    requires t != "" && (t[0] == '/' || t[0] == '?')
    ensures IsAuthority(t) <==> AllVisible(t[1..])
  {
    assert t[..0] == "" && t[0..] == t;
    assert AllVisible(t) <==> AllVisible(t[1..]);
  }

  lemma AuthorityNext(t: string)
    requires t != "" && t[0] != '/' && t[0] != '?'
    ensures IsAuthority(t) <==> IsServerByte(t[0]) && IsAuthority(t[1..]) && !(t[0] == '@' && |t| > 1 && t[1] == '@')
  {
    hide IsServerByte, Visible;
    var k := ServerEnd(t);
    var a, b := t[..k], t[1..][..k - 1];
    assert t[k..] == t[1..][k - 1..];
    assert a[0] == t[0] && a[1..] == b;
    if IsAuthority(t) {
      forall i | 0 <= i < |b| ensures IsServerByte(b[i]) && (i < |b| - 1 ==> !(b[i] == '@' && b[i + 1] == '@')) {
        assert b[i] == a[i + 1];
      }
      assert k > 1 ==> a[1] == t[1];
    }
    if IsServerByte(t[0]) && IsAuthority(t[1..]) && !(t[0] == '@' && |t| > 1 && t[1] == '@') {
      forall i | 0 <= i < |a| ensures IsServerByte(a[i]) && (i < |a| - 1 ==> !(a[i] == '@' && a[i + 1] == '@')) {
        if i > 0 {
          assert a[i] == b[i - 1];
        }
        if i < |a| - 1 {
          assert a[i + 1] == b[i];
        }
      }
    }
  }

  /** The states in which a target may end. */
  predicate EndsTarget(s: State) { InPath(s) || s == ReqServer || s == ReqServerWithAt }

  lemma SchemeStep(s: State, t: string)
    requires t != "" && (s == ReqSchemaSlash || s == ReqSchemaSlashSlash)
    ensures UrlState(s, t) ==
      if t[0] == '/' then UrlState(if s == ReqSchemaSlash then ReqSchemaSlashSlash else ReqServerStart, t[1..]) else Dead
  {
    if t[0] != '/' {
      DeadStays(t[1..]);
    }
  }

  /** The letters of a scheme are passed over. */
  lemma {:induction false} SchemeLetters(t: string)
    ensures UrlState(ReqSchema, t) == UrlState(ReqSchema, t[Letters(t)..])
    decreases |t|
  {
    if t != "" && IsAlpha(t[0]) {
      hide IsAlpha;
      SchemeLetters(t[1..]);
      LetterIsVisible(t[0]);
      assert t[1..][Letters(t) - 1..] == t[Letters(t)..];
    } else {
      assert t[0..] == t;
    }
  }

  /** Behind the letters there must be a colon and two slashes. */
  lemma BehindScheme(t: string)
    requires t == "" || !IsAlpha(t[0])
    ensures if Separated(t) then UrlState(ReqSchema, t) == UrlState(ReqServerStart, t[3..])
      else UrlState(ReqSchema, t) in {Dead, ReqSchema, ReqSchemaSlash, ReqSchemaSlashSlash}
  {
    hide IsAlpha;
    if t != "" && t[0] != ':' {
      DeadStays(t[1..]);
    } else if |t| > 1 {
      BehindColon(t);
      hide UrlState;
      SchemeStep(ReqSchemaSlash, t[1..]);
      if t[1] == '/' && |t| > 2 {
        var u := t[1..][1..];
        assert u[0] == t[2];
        SchemeStep(ReqSchemaSlashSlash, u);
        assert u[1..] == t[3..];
      }
    }
  }

  lemma BehindColon(t: string)
    requires t != "" && t[0] == ':'
    ensures UrlState(ReqSchema, t) == UrlState(ReqSchemaSlash, t[1..])
  {
  }

  /** Where the first byte of a target is looked at. */
  function UrlStart(m: Method): State { if m == CONNECT then ReqServerStart else ReqSpacesBeforeUrl }

  /** The bytes lead to a state in which a target may end exactly when they are one. */
  lemma TargetExactly(m: Method, t: string)
    requires t != ""
    ensures EndsTarget(UrlState(UrlStart(m), t)) <==> IsTarget(m, t)
  {
    hide IsAuthority, IsAlpha, ParseUrlChar, IsAbsolute;
    if m == CONNECT {
      ServerExactly(ReqServerStart, t);
    } else {
      FirstTargetByte(t[0]);
      if IsAbsolute(t) {
        AbsoluteStarts(t);
      }
      if t[0] == '/' || t[0] == '*' {
        PathExactly(ReqPath, t[1..]);
        assert AllVisible(t) <==> AllVisible(t[1..]);
      } else if IsAlpha(t[0]) {
        assert UrlState(ReqSpacesBeforeUrl, t) == UrlState(ReqSchema, t[1..]);
        AbsoluteTail(t);
      } else {
        DeadStays(t[1..]);
      }
    }
  }

  lemma FirstTargetByte(ch: char)
    ensures ParseUrlChar(ReqSpacesBeforeUrl, ch) == if ch == '/' || ch == '*' then ReqPath else if IsAlpha(ch) then ReqSchema else Dead
    ensures ch == '/' || ch == '*' ==> Visible(ch) && !IsAlpha(ch)
  {
    LetterIsVisible(ch);
  }

  lemma AbsoluteStarts(t: string)
    requires IsAbsolute(t)
    ensures t != "" && IsAlpha(t[0])
  {
    hide IsAuthority, IsAlpha;
  }

  lemma LetterIsVisible(ch: char)
    ensures IsAlpha(ch) ==> Visible(ch) && ch != '/' && ch != '*' && ch !in " \r\n\t" && ch as int != 12
    ensures ch == '/' || ch == '*' ==> ch !in " \r\n\t"
  {
    InSet(ch);
  }

  lemma AbsoluteTail(t: string)
    requires t != "" && IsAlpha(t[0])
    ensures EndsTarget(UrlState(ReqSchema, t[1..])) <==> IsAbsolute(t)
  {
    hide IsAuthority, IsAlpha, UrlState;
    var k := Letters(t);
    assert k == 1 + Letters(t[1..]) && t[1..][k - 1..] == t[k..];
    SchemeLetters(t[1..]);
    LettersEnd(t);
    BehindScheme(t[k..]);
    if Separated(t[k..]) {
      assert t[k..][3..] == t[k + 3..];
      ServerExactly(ReqServerStart, t[k + 3..]);
    }
  }

  lemma {:induction false} LettersEnd(t: string)
    ensures var k := Letters(t); k < |t| ==> !IsAlpha(t[k])
  {
    if t != "" && IsAlpha(t[0]) {
      LettersEnd(t[1..]);
    }
  }

  // ---------- targets in the machine ----------

  /** Neither a blank nor a line break. */
  predicate Unbroken(t: string) { forall i :: 0 <= i < |t| ==> t[i] != ' ' && t[i] != CR && t[i] != LF }

  predicate AtUrl(p: Parser) { !Halted(p) && (p.state == ReqSpacesBeforeUrl || IsUrlState(p.state)) }

  function UrlFrom(p: Parser): State { if p.state == ReqSpacesBeforeUrl then UrlStart(p.method_) else p.state }

  lemma NextUrlState(s: State, ch: char)
    ensures ParseUrlChar(s, ch) == Dead || IsUrlState(ParseUrlChar(s, ch))
  {
  }

  lemma UrlByteRuns(s: Session, ch: char)
    requires AtUrl(s.parser) && ch != ' ' && ch != CR && ch != LF && s.parser.nread < HTTP_MAX_HEADER_SIZE
    ensures var next := ParseUrlChar(UrlFrom(s.parser), ch);
      if next == Dead then Advance(s, ch).parser.errno == InvalidUrl
      else Advance(s, ch) == Session(s.parser.(nread := s.parser.nread + 1, state := next), Log(s.log, Data(Url, [ch])), s.consumed + 1)
  {
    LogOne(s.log, Data(Url, [ch]));
    hide Log, LogAll, ParseUrlChar;
    assert Step(s.parser, ch) == ExecUrl(Counted(s.parser), ch);
  }

  /** The bytes of a target are one portion of data, and the first one that cannot go on is an error. */
  lemma {:induction false} RunUrlBytes(s: Session, t: string)
    requires AtUrl(s.parser) && t != "" && Unbroken(t) && s.parser.nread + |t| <= HTTP_MAX_HEADER_SIZE
    ensures var end := UrlState(UrlFrom(s.parser), t); var q := Run(s, t);
      if end == Dead then q.parser.errno == InvalidUrl
      else
        && IsUrlState(end) && EndsIn(q.log, Url)
        && q == Session(s.parser.(nread := s.parser.nread + |t|, state := end), Log(s.log, Data(Url, t)), s.consumed + |t|)
    decreases |t|
  {
    hide Step, Advance, Run, Log, ParseUrlChar, EndsIn;
    assert t == [t[0]] + t[1..];
    var next := ParseUrlChar(UrlFrom(s.parser), t[0]);
    var u := Advance(s, t[0]);
    UrlByteRuns(s, t[0]);
    RunOne(s, t[0], t[1..]);
    NextUrlState(UrlFrom(s.parser), t[0]);
    LogEnds(s.log, Url, [t[0]]);
    if next == Dead {
      DeadStays(t[1..]);
      RunHalted(u, t[1..]);
    } else if t[1..] == "" {
      RunNothing(u);
      assert t == [t[0]];
    } else {
      RunUrlBytes(u, t[1..]);
      LogJoin(s.log, Url, [t[0]], t[1..]);
    }
  }

  lemma TargetEnds(s: Session, ch: char)
    requires AtUrl(s.parser) && s.parser.state != ReqSpacesBeforeUrl && s.parser.nread < HTTP_MAX_HEADER_SIZE && EndsIn(s.log, Url)
    requires ch == ' ' || ch == CR || ch == LF
    ensures if !EndsTarget(s.parser.state) then Advance(s, ch).parser.errno == InvalidUrl
      else
        var p := s.parser.(nread := s.parser.nread + 1);
        Advance(s, ch) == Session(
          if ch == ' ' then p.(state := ReqHttpStart)
          else p.(state := if ch == CR then ReqLineAlmostDone else HeaderFieldStart, major := 0, minor := 9),
          s.log, s.consumed + 1)
  {
    LogNothing(s.log, Url);
    LogOne(s.log, Data(Url, ""));
    hide Log, LogAll;
    hide ExecUrl, ParseUrlChar;
    UrlEndStep(Counted(s.parser), ch);
    assert Step(s.parser, ch) == ExecUrl(Counted(s.parser), ch);
  }

  lemma UrlEndStep(p: Parser, ch: char)
    requires IsUrlState(p.state) && (ch == ' ' || ch == CR || ch == LF)
    ensures ExecUrl(p, ch) ==
      if !EndsTarget(p.state) then Fail(p, InvalidUrl)
      else Result(if ch == ' ' then p.(state := ReqHttpStart)
                  else p.(state := if ch == CR then ReqLineAlmostDone else HeaderFieldStart, major := 0, minor := 9),
                  [Data(Url, "")])
  {
    hide ParseUrlChar;
  }

  /**
   * A text up to a blank or a line end is delivered as the URL if it is a target of the method, and refused
   * otherwise. A line that ends there has the version 0.9.
   */
  lemma RunTarget(s: Session, t: string, ch: char)
    requires !Halted(s.parser) && s.parser.state == ReqSpacesBeforeUrl && t != "" && Unbroken(t)
    requires (ch == ' ' || ch == CR || ch == LF) && s.parser.nread + |t| + 1 <= HTTP_MAX_HEADER_SIZE
    ensures var q := Run(s, t + [ch]);
      if !IsTarget(s.parser.method_, t) then q.parser.errno == InvalidUrl
      else
        var p := s.parser.(nread := s.parser.nread + |t| + 1);
        q == Session(
          if ch == ' ' then p.(state := ReqHttpStart)
          else p.(state := if ch == CR then ReqLineAlmostDone else HeaderFieldStart, major := 0, minor := 9),
          Log(s.log, Data(Url, t)), s.consumed + |t| + 1)
  {
    hide Step, Advance, Run, Log, IsTarget, UrlState, EndsIn;
    RunUrlBytes(s, t);
    TargetExactly(s.parser.method_, t);
    RunSplit(s, t, [ch]);
    var u := Run(s, t);
    if UrlState(UrlFrom(s.parser), t) == Dead {
      RunHalted(u, [ch]);
    } else {
      TargetEnds(u, ch);
      RunSingle(u, ch);
    }
  }

  /** Every target is free of blanks and line breaks. */
  lemma TargetIsUnbroken(m: Method, t: string)
    requires IsTarget(m, t)
    ensures Unbroken(t) && t != ""
  {
    hide IsAuthority, IsAbsolute;
    if m == CONNECT {
      AuthorityIsVisible(t);
    } else if IsAbsolute(t) {
      AbsoluteIsVisible(t);
    }
    assert AllVisible(t);
  }

  lemma AbsoluteIsVisible(t: string)
    requires IsAbsolute(t)
    ensures AllVisible(t) && t != ""
  {
    hide IsAuthority;
    var k := Letters(t);
    LettersAreVisible(t);
    var u := t[k + 3..];
    assert t[k..][0] == t[k] && t[k..][1] == t[k + 1] && t[k..][2] == t[k + 2];
    AuthorityIsVisible(u);
    forall i | 0 <= i < |t| ensures Visible(t[i]) {
      assert i < k + 3 || t[i] == u[i - k - 3];
    }
  }

  lemma AuthorityIsVisible(t: string)
    requires IsAuthority(t)
    ensures AllVisible(t)
  {
    var k := ServerEnd(t);
    forall i | 0 <= i < |t| ensures Visible(t[i]) {
      assert if i < k then IsServerByte(t[..k][i]) else Visible(t[k..][i - k]);
    }
  }

  lemma {:induction false} LettersAreVisible(t: string)
    ensures forall i :: 0 <= i < Letters(t) ==> Visible(t[i])
  {
    if t != "" && IsAlpha(t[0]) {
      LettersAreVisible(t[1..]);
    }
  }

  // ---------- versions ----------

  /** A number of up to 999, with any number of leading zeros. */
  predicate IsSmallNumber(d: string) { d != "" && Decimal.AllDigits(d) && Decimal.Value(d) <= 999 }

  function FirstDot(t: string): (k: nat)
    ensures k <= |t| && (k < |t| ==> t[k] == '.') && forall i :: 0 <= i < k ==> t[i] != '.'
  {
    if t == "" || t[0] == '.' then 0 else 1 + FirstDot(t[1..])
  }

  /** The two numbers of a text with a dot between them. */
  function Numbers(t: string): Option<(nat, nat)> {
    var k := FirstDot(t);
    if k < |t| && IsSmallNumber(t[..k]) && IsSmallNumber(t[k + 1..])
    then Some((Decimal.Value(t[..k]), Decimal.Value(t[k + 1..])))
    else None
  }

  /** A version: two numbers, of which the first does not start with a zero. */
  function VersionOf(t: string): Option<(nat, nat)> {
    if t != "" && t[0] == '0' then None else Numbers(t)
  }

  predicate AtVersion(p: Parser) {
    !Halted(p) && (p.state == ReqFirstHttpMajor || p.state == ReqHttpMajor || p.state == ReqFirstHttpMinor || p.state == ReqHttpMinor)
  }

  lemma VersionByteRuns(s: Session, ch: char)
    requires AtVersion(s.parser) && s.parser.nread < HTTP_MAX_HEADER_SIZE
    ensures var q := ExecVersion(s.parser.(nread := s.parser.nread + 1), ch).parser;
      Advance(s, ch) == Session(q, s.log, if q.errno != OK then s.consumed else s.consumed + 1)
  {
    LogNone(s.log);
    hide Log, LogAll;
    assert Step(s.parser, ch) == ExecVersion(Counted(s.parser), ch);
  }

  predicate IsLineEnd(ch: char) { ch == CR || ch == LF }

  /** The session behind a version that a carriage return ends, or a line feed alone. */
  function BehindVersion(s: Session, major: nat, minor: nat, end: char, n: nat): Session {
    Session(s.parser.(nread := s.parser.nread + n, state := if end == CR then ReqLineAlmostDone else HeaderFieldStart, major := major, minor := minor), s.log, s.consumed + n)
  }

  lemma ValueAtLeast(a: string, b: string)
    requires Decimal.AllDigits(a + b)
    ensures Decimal.AllDigits(a) && Decimal.Value(a) <= Decimal.Value(a + b)
  {
    assert (a + b)[..|a|] == a;
    Decimal.ValueOfPrefix(a + b, |a|);
    forall i | 0 <= i < |a| ensures Decimal.IsDigit(a[i]) {
      assert (a + b)[i] == a[i];
    }
  }

  lemma DigitsAppend(done: string, ch: char)
    requires Decimal.AllDigits(done)
    ensures Decimal.IsDigit(ch) ==> Decimal.AllDigits(done + [ch]) && Decimal.Value(done + [ch]) == 10 * Decimal.Value(done) + Digit(ch)
    ensures Decimal.AllDigits(done + [ch]) ==> Decimal.IsDigit(ch)
  {
    var next := done + [ch];
    assert next[..|done|] == done && next[|done|] == ch;
  }

  /** The rest of the minor number, behind some of its digits. */
  lemma {:induction false} MinorExactly(s: Session, done: string, more: string, end: char)
    requires AtVersion(s.parser) && s.parser.state == ReqHttpMinor && IsSmallNumber(done) && s.parser.minor == Decimal.Value(done)
    requires NoLineBreak(more) && IsLineEnd(end) && s.parser.nread + |more| + 1 <= HTTP_MAX_HEADER_SIZE
    ensures var q := Run(s, more + [end]);
      if IsSmallNumber(done + more) then q == BehindVersion(s, s.parser.major, Decimal.Value(done + more), end, |more| + 1)
      else q.parser.errno == InvalidVersion
    decreases |more|
  {
    hide Step, Advance, Run, Decimal.Value;
    if more == "" {
      assert done + more == done && more + [end] == [end];
      VersionByteRuns(s, end);
      RunSingle(s, end);
    } else {
      var ch := more[0];
      var next := done + [ch];
      var u := Advance(s, ch);
      assert more + [end] == [ch] + (more[1..] + [end]);
      RunOne(s, ch, more[1..] + [end]);
      VersionByteRuns(s, ch);
      DigitsAppend(done, ch);
      ByteByByte(done, more);
      if IsSmallNumber(next) {
        MinorExactly(u, next, more[1..], end);
      } else {
        NotSmall(next, more[1..]);
        RunHalted(u, more[1..] + [end]);
      }
    }
  }

  /** What is no small number does not become one. */
  lemma NotSmall(d: string, more: string)
    requires d != "" && !IsSmallNumber(d)
    ensures !IsSmallNumber(d + more)
  {
    if Decimal.AllDigits(d + more) {
      ValueAtLeast(d, more);
    }
  }

  lemma MinorStartExactly(s: Session, more: string, end: char)
    requires AtVersion(s.parser) && s.parser.state == ReqFirstHttpMinor
    requires NoLineBreak(more) && IsLineEnd(end) && s.parser.nread + |more| + 1 <= HTTP_MAX_HEADER_SIZE
    ensures var q := Run(s, more + [end]);
      if IsSmallNumber(more) then q == BehindVersion(s, s.parser.major, Decimal.Value(more), end, |more| + 1)
      else q.parser.errno == InvalidVersion
  {
    hide Step, Advance, Run, Decimal.Value;
    if more == "" {
      assert more + [end] == [end];
      VersionByteRuns(s, end);
      RunSingle(s, end);
    } else {
      var ch := more[0];
      var u := Advance(s, ch);
      assert more + [end] == [ch] + (more[1..] + [end]);
      assert [ch] + more[1..] == more;
      RunOne(s, ch, more[1..] + [end]);
      VersionByteRuns(s, ch);
      if Decimal.IsDigit(ch) {
        ValueOfDigit(ch);
        MinorExactly(u, [ch], more[1..], end);
      } else {
        RunHalted(u, more[1..] + [end]);
      }
    }
  }

  /** The parser has taken exactly this version, or refused the text. */
  predicate Took(s: Session, q: Session, version: Option<(nat, nat)>, end: char, n: nat) {
    match version
    case None => q.parser.errno == InvalidVersion
    case Some(v) => q == BehindVersion(s, v.0, v.1, end, n)
  }

  lemma DotAhead(done: string, more: string)
    requires '.' !in done
    ensures FirstDot(done + more) == |done| + FirstDot(more)
  {
    if done == "" {
      assert done + more == more;
    } else {
      DotAhead(done[1..], more);
      assert (done + more)[1..] == done[1..] + more;
    }
  }

  /** Behind digits and a dot the minor number decides. */
  lemma NumbersAtDot(done: string, more: string)
    requires IsSmallNumber(done)
    ensures Numbers(done + "." + more) ==
      if IsSmallNumber(more) then Some((Decimal.Value(done), Decimal.Value(more))) else None
  {
    hide Decimal.Value;
    var t := done + "." + more;
    assert t == done + ("." + more);
    DotAhead(done, "." + more);
    assert t[..|done|] == done && t[|done| + 1..] == more;
  }

  lemma NoNumbers(done: string, more: string)
    requires done != "" && '.' !in done && !IsSmallNumber(done)
    ensures Numbers(done + more) == None
  {
    hide IsSmallNumber;
    DotAhead(done, more);
    var k := FirstDot(done + more);
    assert (done + more)[..k] == done + more[..k - |done|];
    NotSmall(done, more[..k - |done|]);
  }

  lemma NoDot(done: string)
    requires '.' !in done
    ensures Numbers(done) == None
  {
    DotAhead(done, "");
    assert done + "" == done;
  }

  lemma {:induction false} MajorExactly(s: Session, done: string, more: string, end: char)
    requires AtVersion(s.parser) && s.parser.state == ReqHttpMajor && IsSmallNumber(done) && s.parser.major == Decimal.Value(done)
    requires NoLineBreak(more) && IsLineEnd(end) && s.parser.nread + |more| + 1 <= HTTP_MAX_HEADER_SIZE
    ensures Took(s, Run(s, more + [end]), Numbers(done + more), end, |more| + 1)
    decreases |more|
  {
    hide Step, Advance, Run, Numbers, IsSmallNumber, Decimal.Value;
    NoDotInNumber(done);
    if more == "" {
      assert more + [end] == [end] && done + more == done;
      NoDot(done);
      VersionByteRuns(s, end);
      RunSingle(s, end);
    } else {
      var ch := more[0];
      var u := Advance(s, ch);
      assert more + [end] == [ch] + (more[1..] + [end]);
      RunOne(s, ch, more[1..] + [end]);
      ByteByByte(done, more);
      if ch == '.' {
        VersionByteRuns(s, ch);
        NumbersAtDot(done, more[1..]);
        assert done + [ch] == done + ".";
        MinorStartExactly(u, more[1..], end);
      } else {
        MajorDigit(s, done, ch);
        if IsSmallNumber(done + [ch]) {
          MajorExactly(u, done + [ch], more[1..], end);
        } else {
          NoNumbers(done + [ch], more[1..]);
          RunHalted(u, more[1..] + [end]);
        }
      }
    }
  }

  lemma NoDotInNumber(done: string)
    requires IsSmallNumber(done)
    ensures '.' !in done && done != ""
  {
  }

  lemma MajorDigit(s: Session, done: string, ch: char)
    requires AtVersion(s.parser) && s.parser.state == ReqHttpMajor && IsSmallNumber(done) && s.parser.major == Decimal.Value(done)
    requires ch != '.' && s.parser.nread < HTTP_MAX_HEADER_SIZE
    ensures var q := Advance(s, ch); var next := done + [ch];
      if IsSmallNumber(next)
      then q == Session(s.parser.(nread := s.parser.nread + 1, major := Decimal.Value(next)), s.log, s.consumed + 1)
      else q.parser.errno == InvalidVersion
  {
    hide Step, Advance, Decimal.Value;
    VersionByteRuns(s, ch);
    DigitsAppend(done, ch);
  }

  lemma FirstMajorDigit(s: Session, ch: char)
    requires AtVersion(s.parser) && s.parser.state == ReqFirstHttpMajor && s.parser.nread < HTTP_MAX_HEADER_SIZE
    ensures var q := Advance(s, ch);
      if Decimal.IsDigit(ch) && ch != '0'
      then q == Session(s.parser.(nread := s.parser.nread + 1, state := ReqHttpMajor, major := Decimal.Value([ch])), s.log, s.consumed + 1)
        && IsSmallNumber([ch])
      else q.parser.errno == InvalidVersion
  {
    hide Step, Advance;
    VersionByteRuns(s, ch);
    if Decimal.IsDigit(ch) {
      ValueOfDigit(ch);
    }
  }

  /** A text up to the line end is taken for a version exactly when it is one, and then for its two numbers. */
  lemma VersionExactly(s: Session, t: string, end: char)
    requires AtVersion(s.parser) && s.parser.state == ReqFirstHttpMajor && NoLineBreak(t) && IsLineEnd(end) && s.parser.nread + |t| + 1 <= HTTP_MAX_HEADER_SIZE
    ensures Took(s, Run(s, t + [end]), VersionOf(t), end, |t| + 1)
  {
    hide Step, Advance, Run, Numbers, IsSmallNumber;
    if t == "" {
      assert t + [end] == [end];
      NoDot("");
      FirstMajorDigit(s, end);
      RunSingle(s, end);
    } else {
      var ch := t[0];
      var u := Advance(s, ch);
      assert t + [end] == [ch] + (t[1..] + [end]);
      assert t == [ch] + t[1..];
      RunOne(s, ch, t[1..] + [end]);
      FirstMajorDigit(s, ch);
      if Decimal.IsDigit(ch) && ch != '0' {
        MajorExactly(u, [ch], t[1..], end);
      } else {
        RunHalted(u, t[1..] + [end]);
        if ch != '0' {
          NoDigitFirst(t);
        }
      }
    }
  }

  lemma NoDigitFirst(t: string)
    requires t != "" && !Decimal.IsDigit(t[0])
    ensures Numbers(t) == None
  {
    var k := FirstDot(t);
    if k > 0 {
      assert t[..k][0] == t[0];
    }
  }
}
