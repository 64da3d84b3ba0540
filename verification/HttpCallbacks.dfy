/** The order of the callbacks: for every input, messages one after the other, each from its begin to its completion. */
module HttpCallbacks {
  import opened Common
  import opened HttpMachine
  import opened HttpBodies
  import opened HttpSafety
  import Server = HttpParser

  /** Where a log stands: between messages or inside one, behind which of its parts. */
  datatype Stage = Between | Begun | InUrl | InHead | InBody | InTrailer | Wrong

  /** A message is its begin, a URL, header lines, the end of the headers, body data, trailer lines and its completion. */
  function Next(st: Stage, e: Event): Stage {
    match e
    case MessageBegin => if st == Between then Begun else Wrong
    case HeadersComplete => if st == InUrl || st == InHead then InBody else Wrong
    case MessageComplete => if st == InBody || st == InTrailer then Between else Wrong
    case Data(Url, _) => if st == Begun || st == InUrl then InUrl else Wrong
    case Data(Field, _) => NextLine(st)
    case Data(FieldValue, _) => if st == InHead || st == InTrailer then st else Wrong
    case Data(Body, _) => if st == InBody then st else Wrong
  }

  /** The name of a header line, in the head or in the trailer. */
  function NextLine(st: Stage): Stage {
    if st == InUrl || st == InHead then InHead else if st == InBody || st == InTrailer then InTrailer else Wrong
  }

  function StageOf(log: seq<Event>): Stage {
    if log == [] then Between else Next(StageOf(log[..|log| - 1]), log[|log| - 1])
  }

  function NextAll(st: Stage, es: seq<Event>): Stage
    decreases |es|
  {
    if es == [] then st else NextAll(Next(st, es[0]), es[1..])
  }

  /** A log in this order is made of messages: between them, as many begins as completions. */
  function Count(log: seq<Event>, e: Event): nat {
    if log == [] then 0 else Count(log[..|log| - 1], e) + (if log[|log| - 1] == e then 1 else 0)
  }

  lemma {:induction false} BeginsAndCompletions(log: seq<Event>)
    requires StageOf(log) != Wrong
    ensures Count(log, MessageBegin) == Count(log, MessageComplete) + (if StageOf(log) == Between then 0 else 1)
    decreases |log|
  {
    if log != [] {
      BeginsAndCompletions(log[..|log| - 1]);
    }
  }

  /** Joining adjacent data does not change where a log stands. */
  lemma StageOfLog(log: seq<Event>, e: Event)
    ensures StageOf(Log(log, e)) == Next(StageOf(log), e)
  {
    if e.Data? && log != [] && log[|log| - 1].Data? && log[|log| - 1].kind == e.kind {
      var n := |log| - 1;
      assert Log(log, e)[..n] == log[..n];
      NextTwice(StageOf(log[..n]), log[n], e);
    } else {
      assert (log + [e])[..|log|] == log;
    }
  }

  lemma NextTwice(st: Stage, d: Event, e: Event)
    requires d.Data? && e.Data? && d.kind == e.kind
    ensures Next(Next(st, d), e) == Next(st, d) == Next(st, Data(d.kind, d.bytes + e.bytes))
  {
  }

  lemma {:induction false} StageOfLogAll(log: seq<Event>, es: seq<Event>)
    ensures StageOf(LogAll(log, es)) == NextAll(StageOf(log), es)
    decreases |es|
  {
    hide Log, Next, StageOf;
    if es != [] {
      StageOfLog(log, es[0]);
      StageOfLogAll(Log(log, es[0]), es[1..]);
    }
  }

  // ---------- what each state of the parser stands for ----------

  predicate InLine(s: State) {
    s == HeaderField || s == HeaderValueStart || s == HeaderValue || s == HeaderAlmostDone || s == HeaderValueLws
  }

  predicate InContent(s: State) {
    IsChunkHeaderState(s) || s == ChunkData || s == ChunkDataAlmostDone || s == ChunkDataDone || s == BodyIdentity
  }

  predicate Fits(p: Parser, st: Stage) {
    if p.state == StartReq || p.state == Dead then st == Between
    else if p.state == ReqMethod || p.state == ReqSpacesBeforeUrl then st == Begun && !p.flags.trailing
    else if IsUrlState(p.state) || IsVersionState(p.state) then st == InUrl && !p.flags.trailing
    else if InLine(p.state) then st == if p.flags.trailing then InTrailer else InHead
    else if p.state == HeaderFieldStart || p.state == HeadersAlmostDone then
      (if p.flags.trailing then st == InBody || st == InTrailer else st == InUrl || st == InHead)
    else InContent(p.state) && st == InBody
  }

  /** The events of a step lead to where its new state stands; a step that fails has none. */
  predicate Follows(r: Result, st: Stage) {
    if r.parser.errno != OK then r.events == [] else Fits(r.parser, NextAll(st, r.events))
  }

  lemma NextOne(st: Stage, e: Event)
    ensures NextAll(st, []) == st && NextAll(st, [e]) == Next(st, e)
  {
    assert [e][1..] == [];
  }

  lemma NextPair(st: Stage, d: Event, e: Event)
    ensures NextAll(st, [d] + [e]) == Next(Next(st, d), e)
  {
    assert ([d] + [e])[1..] == [e];
    NextOne(Next(st, d), e);
  }

  lemma StartFollows(p: Parser, st: Stage, ch: char)
    requires p.errno == OK && Fits(p, st) && (p.state == StartReq || p.state == Dead || p.state == ReqMethod)
    ensures Follows(Exec(p, ch), st)
  {
    SwitchRequestLine(p, ch);
    hide Exec, FirstMethod, OtherMethod, MethodLiteral, NextAll;
    NextOne(st, MessageBegin);
  }

  lemma UrlFollows(p: Parser, st: Stage, ch: char)
    requires p.errno == OK && Fits(p, st) && (p.state == ReqSpacesBeforeUrl || IsUrlState(p.state))
    ensures Follows(ExecUrl(p, ch), st)
  {
    hide ExecUrl, NextAll;
    NextOne(st, Data(Url, [ch]));
    NextOne(st, Data(Url, ""));
    UrlShape(p, ch);
  }

  lemma UrlShape(p: Parser, ch: char)
    requires p.errno == OK && (p.state == ReqSpacesBeforeUrl || IsUrlState(p.state))
    ensures var r := ExecUrl(p, ch); var q := r.parser;
      if q.errno != OK then r.events == []
      else
        && q.flags == p.flags
        && (if r.events == [] then q.state == ReqSpacesBeforeUrl == p.state
            else if r.events == [Data(Url, "")] then
              q.state == ReqHttpStart || q.state == ReqLineAlmostDone || q.state == HeaderFieldStart
            else r.events == [Data(Url, [ch])] && IsUrlState(q.state))
  {
    hide ParseUrlChar;
    UrlGoesOn(p.state, ch);
    UrlGoesOn(ReqServerStart, ch);
  }

  lemma UrlGoesOn(s: State, ch: char)
    requires s == ReqSpacesBeforeUrl || IsUrlState(s)
    ensures ParseUrlChar(s, ch) == Dead || IsUrlState(ParseUrlChar(s, ch))
  {
  }

  lemma VersionFollows(p: Parser, st: Stage, ch: char)
    requires p.errno == OK && Fits(p, st) && IsVersionState(p.state)
    ensures Follows(ExecVersion(p, ch), st)
  {
    hide NextAll, ExecVersion;
    NextOne(st, MessageBegin);
    VersionShape(p, ch);
  }

  lemma VersionShape(p: Parser, ch: char)
    requires p.errno == OK && IsVersionState(p.state)
    ensures var r := ExecVersion(p, ch);
      && r.events == []
      && (r.parser.errno == OK ==>
            (IsVersionState(r.parser.state) || r.parser.state == HeaderFieldStart) && r.parser.flags == p.flags)
  {
  }

  lemma RequestLineFollows(p: Parser, st: Stage, ch: char)
    requires p.errno == OK && Fits(p, st) && IsRequestLineState(p.state)
    ensures Follows(Exec(p, ch), st)
  {
    hide Fits, Follows, Exec, ExecUrl, ExecVersion, ExecStart, ExecMethod;
    SwitchRequestLine(p, ch);
    if p.state == StartReq || p.state == Dead || p.state == ReqMethod {
      StartFollows(p, st, ch);
    } else if IsVersionState(p.state) {
      VersionFollows(p, st, ch);
    } else {
      UrlFollows(p, st, ch);
    }
  }

  lemma FieldFollows(p: Parser, st: Stage, ch: char)
    requires p.errno == OK && Fits(p, st) && p.state == HeaderField
    ensures Follows(ExecField(p, ch), st)
  {
    hide NextAll, FieldByte, Token;
    NextOne(st, Data(Field, [ch]));
    NextOne(st, Data(Field, ""));
    FieldByteKeeps(p, Token(ch), ch);
  }

  lemma FieldByteKeeps(p: Parser, c: char, ch: char)
    ensures FieldByte(p, c, ch).state == p.state && FieldByte(p, c, ch).flags == p.flags
  {
  }

  lemma ValueStartFollows(p: Parser, st: Stage, ch: char)
    requires p.errno == OK && Fits(p, st) && p.state == HeaderValueStart
    ensures Follows(ExecValueStart(p, ch), st)
  {
    hide NextAll, ExecValueStart;
    NextOne(st, Data(FieldValue, [ch]));
    NextOne(st, Data(FieldValue, ""));
    ValueStartShape(p, ch);
  }

  lemma ValueStartShape(p: Parser, ch: char)
    requires p.errno == OK && p.state == HeaderValueStart
    ensures var r := ExecValueStart(p, ch); var q := r.parser;
      if q.errno != OK then r.events == []
      else
        && q.flags.trailing == p.flags.trailing
        && (if r.events == [] then q.state == HeaderValueStart
            else if r.events == [Data(FieldValue, "")] then q.state == HeaderAlmostDone || q.state == HeaderFieldStart
            else r.events == [Data(FieldValue, [ch])] && q.state == HeaderValue)
  {
    hide Lower;
  }

  lemma AlmostDoneFollows(p: Parser, st: Stage, ch: char)
    requires p.errno == OK && Fits(p, st) && p.state == HeaderAlmostDone
    ensures Follows(ExecAlmostDone(p, ch), st) && ExecAlmostDone(p, ch).events == []
  {
    hide NextAll, Fits;
    NextOne(st, MessageBegin);
    FitsInLine(p, st);
    FitsInLine(ExecAlmostDone(p, ch).parser, st);
  }

  lemma FitsInLine(p: Parser, st: Stage)
    ensures InLine(p.state) ==> (Fits(p, st) <==> st == if p.flags.trailing then InTrailer else InHead)
  {
  }

  lemma ValueFollows(p: Parser, st: Stage, ch: char)
    requires p.errno == OK && Fits(p, st) && p.state == HeaderValue
    ensures Follows(ExecValue(p, ch), st)
  {
    hide NextAll, ValueByte, ExecAlmostDone;
    NextOne(st, Data(FieldValue, [ch]));
    NextOne(st, Data(FieldValue, ""));
    ValueByteKeeps(p, ch);
    AlmostDoneFollows(p.(state := HeaderAlmostDone), st, ch);
    assert [Data(FieldValue, "")] + [] == [Data(FieldValue, "")];
    FeedNeverFails(p.(state := HeaderAlmostDone));
  }

  lemma FeedNeverFails(p: Parser)
    requires p.errno == OK
    ensures ExecAlmostDone(p, LF).parser.errno == OK
  {
  }

  lemma ValueByteKeeps(p: Parser, ch: char)
    ensures ValueByte(p, ch).state == p.state && ValueByte(p, ch).flags == p.flags
  {
  }

  lemma HeadersEndFollows(p: Parser, st: Stage, ch: char)
    requires p.errno == OK && Fits(p, st) && p.state == HeadersAlmostDone
    ensures Follows(ExecHeadersAlmostDone(p, ch), st)
    ensures ch == LF ==> ExecHeadersAlmostDone(p, ch).parser.errno == OK
  {
    hide NextAll, ShouldKeepAlive;
    NextOne(st, HeadersComplete);
    NextOne(st, MessageComplete);
    NextPair(st, HeadersComplete, MessageComplete);
    assert [HeadersComplete] + [] == [HeadersComplete];
  }

  lemma FieldStartFollows(p: Parser, st: Stage, ch: char)
    requires p.errno == OK && Fits(p, st) && p.state == HeaderFieldStart
    ensures Follows(ExecFieldStart(p, ch), st)
  {
    hide NextAll, Token, FirstFieldByte, ExecHeadersAlmostDone;
    NextOne(st, Data(Field, [ch]));
    HeadersEndFollows(p.(state := HeadersAlmostDone), st, ch);
  }

  lemma LwsFollows(p: Parser, st: Stage, ch: char)
    requires p.errno == OK && Fits(p, st) && p.state == HeaderValueLws
    ensures Follows(ExecLws(p, ch), st)
  {
    hide NextAll, ExecFieldStart;
    NextOne(st, MessageBegin);
    FieldStartFollows(p.(state := HeaderFieldStart), st, ch);
  }

  lemma HeaderFollows(p: Parser, st: Stage, ch: char)
    requires p.errno == OK && Fits(p, st) && IsHeaderState(p.state)
    ensures Follows(Exec(p, ch), st)
  {
    hide Fits, Follows, Exec;
    hide ExecFieldStart, ExecField, ExecValueStart, ExecValue, ExecLws, ExecAlmostDone, ExecHeadersAlmostDone;
    SwitchHeader(p, ch);
    match p.state {
      case HeaderFieldStart => FieldStartFollows(p, st, ch);
      case HeaderField => FieldFollows(p, st, ch);
      case HeaderValueStart => ValueStartFollows(p, st, ch);
      case HeaderValue => ValueFollows(p, st, ch);
      case HeaderValueLws => LwsFollows(p, st, ch);
      case HeaderAlmostDone => AlmostDoneFollows(p, st, ch);
      case HeadersAlmostDone => HeadersEndFollows(p, st, ch);
    }
  }

  lemma ChunkFollows(p: Parser, st: Stage, ch: char)
    requires p.errno == OK && Fits(p, st)
    requires IsChunkHeaderState(p.state) || p.state == ChunkDataAlmostDone || p.state == ChunkDataDone
    ensures Follows(Exec(p, ch), st)
  {
    hide NextAll, Exec, Fits;
    ChunkShape(p, ch);
    NextOne(st, MessageBegin);
    FitsInContent(p, st);
    FitsInContent(Exec(p, ch).parser, st);
  }

  lemma FitsInContent(p: Parser, st: Stage)
    ensures InContent(p.state) ==> (Fits(p, st) <==> st == InBody)
    ensures p.state == HeaderFieldStart && p.flags.trailing && st == InBody ==> Fits(p, st)
  {
  }

  lemma ChunkShape(p: Parser, ch: char)
    requires p.errno == OK
    requires IsChunkHeaderState(p.state) || p.state == ChunkDataAlmostDone || p.state == ChunkDataDone
    ensures var r := Exec(p, ch);
      && r.events == []
      && (r.parser.errno == OK ==> InContent(r.parser.state) || (r.parser.state == HeaderFieldStart && r.parser.flags.trailing))
  {
    hide Unhex, Accumulate, Exec;
    SwitchChunk(p, ch);
  }

  lemma BodyFollows(p: Parser, st: Stage, ch: char)
    requires p.errno == OK && Fits(p, st) && (p.state == BodyIdentity || p.state == ChunkData)
    ensures Follows(Exec(p, ch), st)
  {
    hide NextAll, ShouldKeepAlive;
    assert Exec(p, ch) == if p.state == BodyIdentity then ExecBody(p, ch) else ExecChunkData(p, ch);
    NextOne(st, Data(Body, [ch]));
    NextPair(st, Data(Body, [ch]), MessageComplete);
  }

  lemma StepFollows(p: Parser, st: Stage, ch: char)
    requires !Halted(p) && Fits(p, st)
    ensures Follows(Step(p, ch), st)
  {
    hide Exec, Follows, Fits, Counted, IsUrlState, IsVersionState;
    var q := Counted(p);
    CountedFits(p, st);
    if q.errno != OK {
      Overflows(p, st, ch);
    } else if IsRequestLineState(p.state) {
      RequestLineFollows(q, st, ch);
    } else if IsHeaderState(p.state) {
      HeaderFollows(q, st, ch);
    } else if p.state == BodyIdentity || p.state == ChunkData {
      BodyFollows(q, st, ch);
    } else {
      ChunkFollows(q, st, ch);
    }
  }

  lemma CountedFits(p: Parser, st: Stage)
    requires Fits(p, st)
    ensures var q := Counted(p); q.state == p.state && (q.errno == OK ==> p.errno == OK && Fits(q, st))
    ensures IsRequestLineState(p.state) || IsHeaderState(p.state) || InContent(p.state)
  {
  }

  lemma Overflows(p: Parser, st: Stage, ch: char)
    requires Counted(p).errno != OK
    ensures Follows(Step(p, ch), st)
  {
    hide Exec;
  }

  // ---------- runs ----------

  lemma FitsIsNotWrong(p: Parser, st: Stage)
    requires Fits(p, st)
    ensures st != Wrong
  {
  }

  lemma AdvanceFollows(s: Session, ch: char)
    requires !Halted(s.parser) && Fits(s.parser, StageOf(s.log))
    ensures var q := Advance(s, ch);
      if q.parser.errno != OK then q.log == s.log else Fits(q.parser, StageOf(q.log))
  {
    hide Step, Fits, StageOf, NextAll;
    StepFollows(s.parser, StageOf(s.log), ch);
    StageOfLogAll(s.log, Step(s.parser, ch).events);
    LogNone(s.log);
  }

  /** From any parser whose log stands where its state says, every input keeps the order, up to an error if one comes. */
  lemma {:induction false} RunKeepsOrder(s: Session, data: string)
    requires Fits(s.parser, StageOf(s.log))
    ensures var q := Run(s, data);
      && StageOf(q.log) != Wrong
      && (q.parser.errno == OK ==> Fits(q.parser, StageOf(q.log)))
    decreases |data|
  {
    hide Advance, Fits, StageOf;
    FitsIsNotWrong(s.parser, StageOf(s.log));
    if data != "" && !Halted(s.parser) {
      AdvanceFollows(s, data[0]);
      var t := Advance(s, data[0]);
      if t.parser.errno == OK {
        RunKeepsOrder(t, data[1..]);
      } else {
        RunHalted(t, data[1..]);
      }
    }
  }

  /** For every input the callbacks come in order, and between messages the log is a row of whole messages. */
  lemma CallbackOrder(data: string)
    ensures var q := Run(START, data);
      && StageOf(q.log) != Wrong
      && (q.parser.errno == OK && (q.parser.state == StartReq || q.parser.state == Dead) ==> StageOf(q.log) == Between)
  {
    hide Run;
    RunKeepsOrder(START, data);
  }

  /** The same for the code, however the input is cut, as long as there is no error. */
  method ServeAnything(pieces: seq<string>) returns (parser: Server.Parser, total: nat)
    requires forall i :: 0 <= i < |pieces| ==> pieces[i] != ""
    ensures parser.errno == OK ==> StageOf(parser.Joined()) != Wrong
    ensures parser.errno == OK && (parser.state == StartReq || parser.state == Dead) ==> StageOf(parser.Joined()) == Between
  {
    hide Run, LogAll, StageOf, Concat;
    parser := new Server.Parser();
    NothingLogged(parser);
    total := parser.ExecutePieces(pieces);
    CallbackOrder(Concat(pieces));
  }

  lemma NothingLogged(parser: Server.Parser)
    requires parser.calls == []
    ensures parser.Joined() == []
  {
  }
}
