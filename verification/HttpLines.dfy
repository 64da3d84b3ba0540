/** Header lines: what the parser delivers for them, and what they do to its flags and its body length. */
module HttpLines {
  import opened Common
  import Decimal
  import opened HttpMachine
  import opened HttpNumbers
  import opened HttpHeaders

  datatype Header = Header(name: string, value: string)

  const LENGTH_NAME := "Content-Length"

  function Line(h: Header): string { h.name + (": " + h.value + "\r\n") }

  function Lines(hs: seq<Header>): string { if hs == [] then "" else Line(hs[0]) + Lines(hs[1..]) }

  function HeaderEvents(hs: seq<Header>): seq<Event> {
    if hs == [] then [] else [Data(Field, hs[0].name), Data(FieldValue, hs[0].value)] + HeaderEvents(hs[1..])
  }

  /** What the parser interprets a header as. */
  function KindOf(h: Header): HeaderState {
    var n := Lowered(h.name);
    if n == "connection" || n == "proxy-connection" then HConnection
    else if n == "content-length" then HContentLength
    else if n == "transfer-encoding" then HTransferEncoding
    else if n == "upgrade" then HUpgrade
    else HGeneral
  }

  /** A header whose line can be written, and which does not announce the length of a body. */
  predicate IsHeader(h: Header) {
    && h.name != "" && IsToken(h.name) && KindOf(h) != HContentLength
    && h.value != "" && h.value[0] != ' ' && h.value[0] != '\t' && NoLineBreak(h.value)
  }

  predicate AreHeaders(hs: seq<Header>) { forall i :: 0 <= i < |hs| ==> IsHeader(hs[i]) }

  /** One of the headers is of this kind and has this word for its value. */
  predicate Says(hs: seq<Header>, kind: HeaderState, word: string) {
    exists i :: 0 <= i < |hs| && KindOf(hs[i]) == kind && IsWordValue(hs[i].value, word)
  }

  predicate Mentions(hs: seq<Header>, kind: HeaderState) { exists i :: 0 <= i < |hs| && KindOf(hs[i]) == kind }

  /** The flags behind headers. */
  function FlagsFrom(f: Flags, hs: seq<Header>): Flags {
    Flags(f.chunked || Says(hs, HTransferEncoding, "chunked"),
          f.keepAlive || Says(hs, HConnection, "keep-alive"),
          f.close || Says(hs, HConnection, "close"),
          f.trailing,
          f.upgrade || Mentions(hs, HUpgrade))
  }

  lemma SaysFirst(hs: seq<Header>, kind: HeaderState, word: string)
    requires hs != []
    ensures Says(hs, kind, word) <==> (KindOf(hs[0]) == kind && IsWordValue(hs[0].value, word)) || Says(hs[1..], kind, word)
  {
    hide KindOf, IsWordValue;
    if Says(hs[1..], kind, word) {
      var i :| 0 <= i < |hs[1..]| && KindOf(hs[1..][i]) == kind && IsWordValue(hs[1..][i].value, word);
      assert hs[1..][i] == hs[i + 1];
    }
    if Says(hs, kind, word) {
      var i :| 0 <= i < |hs| && KindOf(hs[i]) == kind && IsWordValue(hs[i].value, word);
      assert i > 0 ==> hs[1..][i - 1] == hs[i];
    }
  }

  lemma MentionsFirst(hs: seq<Header>, kind: HeaderState)
    requires hs != []
    ensures Mentions(hs, kind) <==> KindOf(hs[0]) == kind || Mentions(hs[1..], kind)
  {
    hide KindOf;
    if Mentions(hs[1..], kind) {
      var i :| 0 <= i < |hs[1..]| && KindOf(hs[1..][i]) == kind;
      assert hs[1..][i] == hs[i + 1];
    }
    if Mentions(hs, kind) {
      var i :| 0 <= i < |hs| && KindOf(hs[i]) == kind;
      assert i > 0 ==> hs[1..][i - 1] == hs[i];
    }
  }

  /** Header by header. */
  lemma FlagsFirst(f: Flags, hs: seq<Header>)
    requires hs != [] && IsHeader(hs[0])
    ensures FlagsFrom(f, hs) == FlagsFrom(FlagsOf(f, KindOf(hs[0]), hs[0].value), hs[1..])
  {
    hide KindOf, IsWordValue, Says, Mentions;
    SaysFirst(hs, HTransferEncoding, "chunked");
    SaysFirst(hs, HConnection, "keep-alive");
    SaysFirst(hs, HConnection, "close");
    MentionsFirst(hs, HUpgrade);
  }

  lemma NoFlagsFrom(f: Flags)
    ensures FlagsFrom(f, []) == f
  {
  }

  // ---------- names ----------

  lemma NameStarts(s: Session, ch: char)
    requires AtHeader(s.parser) && Token(ch) != '\0' && s.parser.nread < HTTP_MAX_HEADER_SIZE
    ensures var q := Advance(s, ch);
      && q == Session(s.parser.(nread := s.parser.nread + 1, index := 0, state := HeaderField, headerState := q.parser.headerState),
                      Log(s.log, Data(Field, [ch])), s.consumed + 1)
      && InName(q.parser, [ch])
  {
    TokenIsNoBreak(ch);
    LogOne(s.log, Data(Field, [ch]));
    assert Lowered([ch]) == [Token(ch)];
    hide Log, LogAll, Token, Tracks, FirstFieldByte, ExecHeadersAlmostDone;
    FirstByteTracks(Advance(s, ch).parser, Token(ch));
  }

  lemma NameByte(s: Session, done: string, ch: char)
    requires InName(s.parser, done) && Token(ch) != '\0' && s.parser.nread < HTTP_MAX_HEADER_SIZE
    ensures var q := Advance(s, ch);
      && SameButMatch(s.parser, q.parser, 1) && InName(q.parser, done + [ch])
      && q.log == Log(s.log, Data(Field, [ch])) && q.consumed == s.consumed + 1
  {
    NameAdvance(s, done, ch);
    LogOne(s.log, Data(Field, [ch]));
    hide Log, LogAll, Tracks, FieldByte, Token, Lowered;
    assert Step(s.parser, ch) == ExecField(Counted(s.parser), ch);
  }

  lemma {:induction false} RunNameBytes(s: Session, done: string, more: string)
    requires InName(s.parser, done) && IsToken(more) && s.parser.nread + |more| <= HTTP_MAX_HEADER_SIZE && EndsIn(s.log, Field)
    ensures var q := Run(s, more);
      && SameButMatch(s.parser, q.parser, |more|) && InName(q.parser, done + more)
      && q.log == Log(s.log, Data(Field, more)) && q.consumed == s.consumed + |more| && EndsIn(q.log, Field)
    decreases |more|
  {
    hide Step, Advance, Log, Tracks, Token, EndsIn;
    LogEnds(s.log, Field, more);
    if more == "" {
      assert done + more == done;
      LogNothing(s.log, Field);
    } else {
      NameByte(s, done, more[0]);
      LogEnds(s.log, Field, [more[0]]);
      RunNameBytes(Advance(s, more[0]), done + [more[0]], more[1..]);
      assert (done + [more[0]]) + more[1..] == done + more;
      LogJoin(s.log, Field, [more[0]], more[1..]);
      assert [more[0]] + more[1..] == more;
    }
  }

  lemma NameColon(s: Session)
    requires !Halted(s.parser) && s.parser.state == HeaderField && s.parser.nread < HTTP_MAX_HEADER_SIZE && EndsIn(s.log, Field)
    ensures Advance(s, ':') == Session(s.parser.(nread := s.parser.nread + 1, state := HeaderValueStart), s.log, s.consumed + 1)
  {
    LogNothing(s.log, Field);
    LogOne(s.log, Data(Field, ""));
    hide Log, LogAll;
    assert Step(s.parser, ':') == ExecField(Counted(s.parser), ':');
  }

  lemma ValueBlank(s: Session)
    requires !Halted(s.parser) && s.parser.state == HeaderValueStart && s.parser.nread < HTTP_MAX_HEADER_SIZE
    ensures Advance(s, ' ') == Session(s.parser.(nread := s.parser.nread + 1), s.log, s.consumed + 1)
  {
    LogNone(s.log);
    hide Log, LogAll;
    assert Step(s.parser, ' ') == ExecValueStart(Counted(s.parser), ' ');
  }

  /** A name with its colon and a blank, and what the parser makes of the name. */
  lemma RunFieldName(s: Session, name: string)
    requires AtHeader(s.parser) && name != "" && IsToken(name) && s.parser.nread + |name| + 2 <= HTTP_MAX_HEADER_SIZE
    ensures var q := Run(s, name + ": ");
      && q.parser == s.parser.(nread := s.parser.nread + |name| + 2, state := HeaderValueStart, index := q.parser.index, headerState := q.parser.headerState)
      && q.log == Log(s.log, Data(Field, name)) && q.consumed == s.consumed + |name| + 2
      && Tracks(q.parser, Lowered(name))
  {
    hide Step, Run, Advance, Log, Tracks, Token, EndsIn;
    RunSplit(s, name, ": ");
    RunWholeName(s, name);
    var u := Run(s, name);
    NameColon(u);
    ValueBlank(Advance(u, ':'));
    assert ": " == [':', ' '];
    RunTwo(u, ':', ' ');
    TracksIgnoresCount(u.parser, Run(u, ": ").parser, Lowered(name));
  }

  lemma RunWholeName(s: Session, name: string)
    requires AtHeader(s.parser) && name != "" && IsToken(name) && s.parser.nread + |name| <= HTTP_MAX_HEADER_SIZE
    ensures var q := Run(s, name);
      && q.parser == s.parser.(nread := s.parser.nread + |name|, state := HeaderField, index := q.parser.index, headerState := q.parser.headerState)
      && q.log == Log(s.log, Data(Field, name)) && q.consumed == s.consumed + |name| && EndsIn(q.log, Field)
      && InName(q.parser, name)
  {
    hide Step, Run, Advance, Log, Tracks, Token, EndsIn;
    var t := Advance(s, name[0]);
    NameStarts(s, name[0]);
    LogEnds(s.log, Field, [name[0]]);
    assert name == [name[0]] + name[1..];
    RunOne(s, name[0], name[1..]);
    RunNameBytes(t, [name[0]], name[1..]);
    LogJoin(s.log, Field, [name[0]], name[1..]);
  }

  // ---------- values ----------

  lemma ValueStarts(s: Session, ch: char)
    requires !Halted(s.parser) && s.parser.state == HeaderValueStart && s.parser.headerState != HContentLength
    requires ch != CR && ch != LF && ch != ' ' && ch != '\t' && s.parser.nread < HTTP_MAX_HEADER_SIZE
    ensures var q := Advance(s, ch);
      && q == Session(s.parser.(nread := s.parser.nread + 1, state := HeaderValue, index := 0, headerState := q.parser.headerState,
                                flags := FlagsInValue(s.parser)),
                      Log(s.log, Data(FieldValue, [ch])), s.consumed + 1)
      && InValue(q.parser, s.parser.headerState, [ch])
  {
    ValueStart(s, ch);
    LogOne(s.log, Data(FieldValue, [ch]));
    hide Log, LogAll, TracksValue, Step;
    ValueStartStep(s.parser, ch);
  }

  lemma ValueNext(s: Session, h: HeaderState, done: string, ch: char)
    requires InValue(s.parser, h, done) && ch != CR && ch != LF && s.parser.nread < HTTP_MAX_HEADER_SIZE
    ensures var q := Advance(s, ch);
      && SameButMatch(s.parser, q.parser, 1) && InValue(q.parser, h, done + [ch])
      && q.log == Log(s.log, Data(FieldValue, [ch])) && q.consumed == s.consumed + 1
  {
    ValueAdvance(s, h, done, ch);
    LogOne(s.log, Data(FieldValue, [ch]));
    hide Log, LogAll, TracksValue, ValueByte;
    assert Step(s.parser, ch) == ExecValue(Counted(s.parser), ch);
  }

  lemma {:induction false} RunValueRest(s: Session, h: HeaderState, done: string, more: string)
    requires InValue(s.parser, h, done) && NoLineBreak(more) && s.parser.nread + |more| <= HTTP_MAX_HEADER_SIZE
    requires EndsIn(s.log, FieldValue)
    ensures var q := Run(s, more);
      && SameButMatch(s.parser, q.parser, |more|) && InValue(q.parser, h, done + more)
      && q.log == Log(s.log, Data(FieldValue, more)) && q.consumed == s.consumed + |more| && EndsIn(q.log, FieldValue)
    decreases |more|
  {
    hide Step, Advance, Log, TracksValue, EndsIn;
    LogEnds(s.log, FieldValue, more);
    if more == "" {
      assert done + more == done;
      LogNothing(s.log, FieldValue);
    } else {
      ValueNext(s, h, done, more[0]);
      LogEnds(s.log, FieldValue, [more[0]]);
      RunValueRest(Advance(s, more[0]), h, done + [more[0]], more[1..]);
      ByteByByte(done, more);
      LogJoin(s.log, FieldValue, [more[0]], more[1..]);
      assert [more[0]] + more[1..] == more;
    }
  }

  lemma RunValueWhole(s: Session, v: string)
    requires !Halted(s.parser) && s.parser.state == HeaderValueStart && s.parser.headerState != HContentLength
    requires v != "" && v[0] != ' ' && v[0] != '\t' && NoLineBreak(v) && s.parser.nread + |v| <= HTTP_MAX_HEADER_SIZE
    ensures var q := Run(s, v);
      && q == Session(s.parser.(nread := s.parser.nread + |v|, state := HeaderValue, index := q.parser.index,
                                headerState := q.parser.headerState, flags := FlagsInValue(s.parser)),
                      Log(s.log, Data(FieldValue, v)), s.consumed + |v|)
      && TracksValue(q.parser, s.parser.headerState, v) && EndsIn(q.log, FieldValue)
  {
    hide Step, Run, Advance, Log, TracksValue, EndsIn;
    var t := Advance(s, v[0]);
    ValueStarts(s, v[0]);
    LogEnds(s.log, FieldValue, [v[0]]);
    assert v == [v[0]] + v[1..];
    RunOne(s, v[0], v[1..]);
    RunValueRest(t, s.parser.headerState, [v[0]], v[1..]);
    LogJoin(s.log, FieldValue, [v[0]], v[1..]);
  }

  lemma LineReturn(s: Session)
    requires !Halted(s.parser) && s.parser.state == HeaderValue && s.parser.nread < HTTP_MAX_HEADER_SIZE && EndsIn(s.log, FieldValue)
    ensures Advance(s, '\r') == Session(s.parser.(nread := s.parser.nread + 1, state := HeaderAlmostDone), s.log, s.consumed + 1)
  {
    LogNothing(s.log, FieldValue);
    LogOne(s.log, Data(FieldValue, ""));
    hide Log, LogAll, ValueByte;
    assert Step(s.parser, '\r') == ExecValue(Counted(s.parser), '\r');
  }

  lemma LineFeed(s: Session)
    requires !Halted(s.parser) && s.parser.state == HeaderAlmostDone && s.parser.nread < HTTP_MAX_HEADER_SIZE
    ensures Advance(s, '\n') == Session(
      s.parser.(nread := s.parser.nread + 1, state := HeaderValueLws, flags := FlagsBehindValue(s.parser)), s.log, s.consumed + 1)
  {
    LogNone(s.log);
    hide Log, LogAll;
    assert Step(s.parser, '\n') == ExecAlmostDone(Counted(s.parser), '\n');
  }

  lemma RunLineEnd(s: Session)
    requires !Halted(s.parser) && s.parser.state == HeaderValue && s.parser.nread + 2 <= HTTP_MAX_HEADER_SIZE && EndsIn(s.log, FieldValue)
    ensures Run(s, "\r\n") == Session(
      s.parser.(nread := s.parser.nread + 2, state := HeaderValueLws, flags := FlagsBehindValue(s.parser)), s.log, s.consumed + 2)
  {
    hide Step, Run, Advance, Log, EndsIn;
    LineReturn(s);
    LineFeed(Advance(s, '\r'));
    assert "\r\n" == ['\r', '\n'];
    RunTwo(s, '\r', '\n');
  }

  /** The parser p behind n bytes of header lines. */
  predicate Passed(p: Parser, q: Parser, n: nat) {
    q == p.(nread := p.nread + n, state := HeaderValueLws, index := q.index, headerState := q.headerState)
  }

  lemma RunValueLine(s: Session, v: string)
    requires !Halted(s.parser) && s.parser.state == HeaderValueStart && s.parser.headerState != HContentLength
    requires v != "" && v[0] != ' ' && v[0] != '\t' && NoLineBreak(v) && s.parser.nread + |v| + 2 <= HTTP_MAX_HEADER_SIZE
    ensures var q := Run(s, v + "\r\n");
      && Passed(s.parser.(flags := FlagsOf(s.parser.flags, s.parser.headerState, v)), q.parser, |v| + 2)
      && q.log == Log(s.log, Data(FieldValue, v)) && q.consumed == s.consumed + |v| + 2
  {
    hide Step, Run, Advance, Log, EndsIn, TracksValue, FlagsOf, FlagsInValue, FlagsBehindValue;
    RunValueWhole(s, v);
    var u := Run(s, v);
    RunSplit(s, v, "\r\n");
    RunLineEnd(u);
    FlagsAgree(s.parser, u.parser, v);
  }

  // ---------- header lines ----------

  lemma LineParts(h: Header)
    ensures Line(h) == (h.name + ": ") + (h.value + "\r\n") && |Line(h)| == |h.name| + |h.value| + 4
  {
    assert ": " + h.value + "\r\n" == ": " + (h.value + "\r\n");
  }

  /** The two events of a header line, behind a log that does not end in a header name. */
  lemma LogHeader(log: seq<Event>, h: Header)
    requires !EndsIn(log, Field)
    ensures var after := log + [Data(Field, h.name), Data(FieldValue, h.value)];
      Log(Log(log, Data(Field, h.name)), Data(FieldValue, h.value)) == after && !EndsIn(after, Field)
  {
    assert Log(log, Data(Field, h.name)) == log + [Data(Field, h.name)];
  }

  /** The match state behind a name sets the flags that the name calls for. */
  lemma KindTracked(p: Parser, f: Flags, h: Header)
    requires h.name != "" && Tracks(p, Lowered(h.name))
    ensures FlagsOf(f, p.headerState, h.value) == FlagsOf(f, KindOf(h), h.value)
    ensures p.headerState == HContentLength <==> KindOf(h) == HContentLength
  {
    hide IsWordValue, Lowered;
    KnownNamesDiffer(p, Lowered(h.name));
  }

  /** A header line is delivered as its name and its value, and sets the flags that it should. */
  lemma RunHeader(s: Session, h: Header)
    requires AtHeader(s.parser) && IsHeader(h) && s.parser.nread + |Line(h)| <= HTTP_MAX_HEADER_SIZE && !EndsIn(s.log, Field)
    ensures var q := Run(s, Line(h));
      && Passed(s.parser.(flags := FlagsOf(s.parser.flags, KindOf(h), h.value)), q.parser, |Line(h)|)
      && q.consumed == s.consumed + |Line(h)|
      && q.log == s.log + [Data(Field, h.name), Data(FieldValue, h.value)] && !EndsIn(q.log, Field)
  {
    LineParts(h);
    hide Step, Run, Log, Tracks, Token, EndsIn, NoLineBreak, Line, KindOf, Lowered, FlagsOf;
    RunSplit(s, h.name + ": ", h.value + "\r\n");
    RunFieldName(s, h.name);
    var t := Run(s, h.name + ": ");
    KindTracked(t.parser, s.parser.flags, h);
    RunValueLine(t, h.value);
    LogHeader(s.log, h);
  }

  /**
   * A line that starts with a blank or a tab continues the value of the header before it: its text is added to that
   * value, and sets no flag of the header that it continues.
   */
  lemma RunFold(s: Session, blank: char, v: string)
    requires !Halted(s.parser) && s.parser.state == HeaderValueLws && (blank == ' ' || blank == '\t')
    requires s.parser.headerState !in {HConnection, HContentLength, HTransferEncoding, HUpgrade}
    requires v != "" && v[0] != ' ' && v[0] != '\t' && NoLineBreak(v) && s.parser.nread + |v| + 3 <= HTTP_MAX_HEADER_SIZE
    ensures var q := Run(s, [blank] + (v + "\r\n"));
      Passed(s.parser, q.parser, |v| + 3) && q.log == Log(s.log, Data(FieldValue, v)) && q.consumed == s.consumed + |v| + 3
  {
    hide Step, Run, Advance, Log;
    FoldStarts(s, blank);
    var t := Advance(s, blank);
    RunOne(s, blank, v + "\r\n");
    RunValueLine(t, v);
    NoMeaning(s.parser.flags, s.parser.headerState, v);
  }

  lemma NoMeaning(f: Flags, h: HeaderState, v: string)
    requires h !in {HConnection, HContentLength, HTransferEncoding, HUpgrade}
    ensures FlagsOf(f, h, v) == f
  {
  }

  lemma FoldStarts(s: Session, blank: char)
    requires !Halted(s.parser) && s.parser.state == HeaderValueLws && (blank == ' ' || blank == '\t') && s.parser.nread < HTTP_MAX_HEADER_SIZE
    ensures Advance(s, blank) == Session(s.parser.(nread := s.parser.nread + 1, state := HeaderValueStart), s.log, s.consumed + 1)
  {
    LogNone(s.log);
    hide Log, LogAll;
    assert Step(s.parser, blank) == ExecLws(Counted(s.parser), blank);
  }

  /** Behind header lines only positions, the match state and the flags have changed. */
  predicate Behind(p: Parser, q: Parser, n: nat, hs: seq<Header>) {
    q == p.(nread := p.nread + n, state := q.state, index := q.index, headerState := q.headerState, flags := FlagsFrom(p.flags, hs))
    && AtHeader(q)
  }

  lemma {:induction false} RunHeaders(s: Session, hs: seq<Header>)
    requires AtHeader(s.parser) && AreHeaders(hs) && !EndsIn(s.log, Field) && s.parser.nread + |Lines(hs)| <= HTTP_MAX_HEADER_SIZE
    ensures var q := Run(s, Lines(hs));
      && Behind(s.parser, q.parser, |Lines(hs)|, hs)
      && q.consumed == s.consumed + |Lines(hs)| && q.log == s.log + HeaderEvents(hs) && !EndsIn(q.log, Field)
    decreases |hs|
  {
    hide Step, Run, Line, Lines, HeaderEvents, IsHeader, EndsIn, FlagsFrom, FlagsOf, KindOf;
    if hs == [] {
      NoLines();
      RunNothing(s);
      NoFlagsFrom(s.parser.flags);
      assert s.log + [] == s.log;
    } else {
      FirstLine(hs);
      FlagsFirst(s.parser.flags, hs);
      RunSplit(s, Line(hs[0]), Lines(hs[1..]));
      RunHeader(s, hs[0]);
      RunHeaders(Run(s, Line(hs[0])), hs[1..]);
      JoinTwo(s.log, [Data(Field, hs[0].name), Data(FieldValue, hs[0].value)], HeaderEvents(hs[1..]));
    }
  }

  lemma NoLines()
    ensures Lines([]) == "" && HeaderEvents([]) == []
  {
  }

  lemma FirstLine(hs: seq<Header>)
    requires hs != []
    ensures Lines(hs) == Line(hs[0]) + Lines(hs[1..]) && |Lines(hs)| == |Line(hs[0])| + |Lines(hs[1..])|
    ensures HeaderEvents(hs) == [Data(Field, hs[0].name), Data(FieldValue, hs[0].value)] + HeaderEvents(hs[1..])
  {
    hide Line;
  }

  lemma JoinTwo(a: seq<Event>, b: seq<Event>, c: seq<Event>)
    ensures a + b + c == a + (b + c)
  {
  }

  lemma {:induction false} LinesAppend(hs: seq<Header>, h: Header)
    ensures Lines(hs + [h]) == Lines(hs) + Line(h)
    ensures HeaderEvents(hs + [h]) == HeaderEvents(hs) + [Data(Field, h.name), Data(FieldValue, h.value)]
  {
    hide Line, Lines, HeaderEvents;
    var all := hs + [h];
    NoLines();
    FirstLine(all);
    if hs == [] {
      assert all[1..] == [];
    } else {
      FirstLine(hs);
      LinesAppend(hs[1..], h);
      assert all[1..] == hs[1..] + [h];
    }
  }

  // ---------- the length of the body ----------

  lemma LengthStarts(s: Session, ch: char)
    requires !Halted(s.parser) && s.parser.state == HeaderValueStart && s.parser.nread < HTTP_MAX_HEADER_SIZE
    requires s.parser.headerState == HContentLength && Decimal.IsDigit(ch)
    ensures Advance(s, ch) == Session(
      s.parser.(nread := s.parser.nread + 1, index := 0, state := HeaderValue, contentLength := Digit(ch)),
      Log(s.log, Data(FieldValue, [ch])), s.consumed + 1)
  {
    LogOne(s.log, Data(FieldValue, [ch]));
    hide Log, LogAll;
    assert Step(s.parser, ch) == ExecValueStart(Counted(s.parser), ch);
  }

  lemma LengthByte(s: Session, ch: char)
    requires !Halted(s.parser) && s.parser.state == HeaderValue && s.parser.headerState == HContentLength
    requires Decimal.IsDigit(ch) && s.parser.nread < HTTP_MAX_HEADER_SIZE && s.parser.contentLength * 10 + Digit(ch) < ULLONG_MAX
    ensures Advance(s, ch) == Session(
      s.parser.(nread := s.parser.nread + 1, contentLength := s.parser.contentLength * 10 + Digit(ch)),
      Log(s.log, Data(FieldValue, [ch])), s.consumed + 1)
  {
    LogOne(s.log, Data(FieldValue, [ch]));
    AccumulateExact(s.parser.contentLength, 10, Digit(ch));
    hide Log, LogAll, Accumulate;
    assert Step(s.parser, ch) == ExecValue(Counted(s.parser), ch);
  }

  lemma {:induction false} RunLengthBytes(s: Session, done: string, more: string)
    requires !Halted(s.parser) && s.parser.state == HeaderValue && s.parser.headerState == HContentLength
    requires Decimal.AllDigits(done) && Decimal.AllDigits(more) && Decimal.Value(done + more) < ULLONG_MAX
    requires s.parser.contentLength == Decimal.Value(done) && s.parser.nread + |more| <= HTTP_MAX_HEADER_SIZE
    requires EndsIn(s.log, FieldValue)
    ensures var log := Log(s.log, Data(FieldValue, more));
      && Run(s, more) == Session(
           s.parser.(nread := s.parser.nread + |more|, contentLength := Decimal.Value(done + more)), log, s.consumed + |more|)
      && EndsIn(log, FieldValue)
    decreases |more|
  {
    hide Step, Advance, Log, EndsIn, Decimal.Value;
    LogEnds(s.log, FieldValue, more);
    if more == "" {
      assert done + more == done;
      LogNothing(s.log, FieldValue);
    } else {
      DigitValueNext(done, more);
      LengthByte(s, more[0]);
      LogEnds(s.log, FieldValue, [more[0]]);
      RunLengthBytes(Advance(s, more[0]), done + [more[0]], more[1..]);
      LogJoin(s.log, FieldValue, [more[0]], more[1..]);
      assert [more[0]] + more[1..] == more;
    }
  }

  lemma RunLengthValue(s: Session, v: string)
    requires !Halted(s.parser) && s.parser.state == HeaderValueStart && s.parser.headerState == HContentLength
    requires v != "" && Decimal.AllDigits(v) && Decimal.Value(v) < ULLONG_MAX && s.parser.nread + |v| + 2 <= HTTP_MAX_HEADER_SIZE
    ensures var q := Run(s, v + "\r\n");
      && Passed(s.parser.(contentLength := Decimal.Value(v)), q.parser, |v| + 2)
      && q.log == Log(s.log, Data(FieldValue, v)) && q.consumed == s.consumed + |v| + 2
  {
    hide Step, Run, Advance, Log, EndsIn, Decimal.Value;
    RunSplit(s, v, "\r\n");
    RunLengthText(s, v);
    RunLineEnd(Run(s, v));
  }

  lemma RunLengthText(s: Session, v: string)
    requires !Halted(s.parser) && s.parser.state == HeaderValueStart && s.parser.headerState == HContentLength
    requires v != "" && Decimal.AllDigits(v) && Decimal.Value(v) < ULLONG_MAX && s.parser.nread + |v| <= HTTP_MAX_HEADER_SIZE
    ensures Run(s, v) == Session(
      s.parser.(nread := s.parser.nread + |v|, index := 0, state := HeaderValue, contentLength := Decimal.Value(v)),
      Log(s.log, Data(FieldValue, v)), s.consumed + |v|)
    ensures EndsIn(Run(s, v).log, FieldValue)
  {
    hide Step, Run, Advance, Log, EndsIn, Decimal.Value;
    var t := Advance(s, v[0]);
    LengthStarts(s, v[0]);
    ValueOfDigit(v[0]);
    LogEnds(s.log, FieldValue, [v[0]]);
    assert v == [v[0]] + v[1..];
    RunOne(s, v[0], v[1..]);
    RunLengthBytes(t, [v[0]], v[1..]);
    LogJoin(s.log, FieldValue, [v[0]], v[1..]);
  }

  lemma LengthName(p: Parser)
    ensures LENGTH_NAME != "" && IsToken(LENGTH_NAME)
    ensures Tracks(p, Lowered(LENGTH_NAME)) ==> p.headerState == HContentLength
  {
    assert Lowered(LENGTH_NAME) == CONTENT_LENGTH;
    KnownLength(p);
  }

  lemma KnownLength(p: Parser)
    requires Lowered(LENGTH_NAME) == CONTENT_LENGTH
    ensures Tracks(p, CONTENT_LENGTH) ==> p.headerState == HContentLength
  {
    if Tracks(p, CONTENT_LENGTH) {
      KnownNamesDiffer(p, CONTENT_LENGTH);
    }
  }

  /** The line that announces a body. */
  lemma RunLength(s: Session, n: nat)
    requires AtHeader(s.parser) && n < ULLONG_MAX && !EndsIn(s.log, Field)
    requires var h := Header(LENGTH_NAME, Decimal.Numeral(n)); s.parser.nread + |Line(h)| <= HTTP_MAX_HEADER_SIZE
    ensures var h := Header(LENGTH_NAME, Decimal.Numeral(n));
      var q := Run(s, Line(h));
      && Passed(s.parser.(contentLength := n), q.parser, |Line(h)|) && q.consumed == s.consumed + |Line(h)|
      && q.log == s.log + [Data(Field, h.name), Data(FieldValue, h.value)]
  {
    var h := Header(LENGTH_NAME, Decimal.Numeral(n));
    LineParts(h);
    Decimal.ValueOfNumeral(n);
    hide Step, Run, Log, Tracks, Token, EndsIn, Line, Lowered, Decimal.Numeral, Decimal.Value, IsToken;
    RunSplit(s, h.name + ": ", h.value + "\r\n");
    LengthName(Run(s, h.name + ": ").parser);
    RunFieldName(s, h.name);
    RunLengthValue(Run(s, h.name + ": "), h.value);
    LogHeader(s.log, h);
  }

  /** But a line that continues a Content-Length starts the number anew: only its last line counts. */
  lemma RunFoldedLength(s: Session, blank: char, v: string)
    requires !Halted(s.parser) && s.parser.state == HeaderValueLws && (blank == ' ' || blank == '\t')
    requires s.parser.headerState == HContentLength
    requires v != "" && Decimal.AllDigits(v) && Decimal.Value(v) < ULLONG_MAX && s.parser.nread + |v| + 3 <= HTTP_MAX_HEADER_SIZE
    ensures var q := Run(s, [blank] + (v + "\r\n"));
      && Passed(s.parser.(contentLength := Decimal.Value(v)), q.parser, |v| + 3)
      && q.log == Log(s.log, Data(FieldValue, v)) && q.consumed == s.consumed + |v| + 3
  {
    hide Step, Run, Advance, Log, Decimal.Value;
    FoldStarts(s, blank);
    var t := Advance(s, blank);
    RunOne(s, blank, v + "\r\n");
    RunLengthValue(t, v);
  }
}
