/** Whole requests: what the parser delivers for a request written out in the usual form. */
module HttpRequests {
  import opened Common
  import Decimal
  import opened HttpMachine
  import opened HttpNumbers
  import opened HttpHeaders
  import opened HttpMethods
  import opened HttpBodies
  import opened HttpTargets
  import opened HttpLines
  import Server = HttpParser

  /** No body, a body of announced length, or a body in chunks with what ends it. */
  datatype Content = Nothing | Sized(bytes: string) | InChunks(chunks: seq<Chunk>, last: Size, trailer: seq<Header>)

  datatype Request = Request(method_: Method, target: string, version: string, headers: seq<Header>, content: Content)

  const CODING := Header("Transfer-Encoding", "chunked")

  /** The header that announces the body. */
  function Announcement(c: Content): seq<Header> {
    match c
    case Nothing => []
    case Sized(bytes) => [Header(LENGTH_NAME, Decimal.Numeral(|bytes|))]
    case InChunks(_, _, _) => [CODING]
  }

  /** The headers as sent: the body is announced last. */
  function AllHeaders(r: Request): seq<Header> { r.headers + Announcement(r.content) }

  function RequestLine(r: Request): string { Word(r.method_) + " " + (r.target + " ") + ("HTTP/" + (r.version + "\r") + "\n") }

  function Head(r: Request): string { RequestLine(r) + Lines(AllHeaders(r)) + "\r\n" }

  function BodyText(c: Content): string {
    match c
    case Nothing => ""
    case Sized(bytes) => bytes
    case InChunks(chunks, last, trailer) => EncodeAll(chunks) + SizeLine(last) + Lines(trailer) + "\r\n"
  }

  function Text(r: Request): string { Head(r) + BodyText(r.content) }

  // ---------- what must be delivered ----------

  function Bytes(c: Content): string {
    match c
    case Nothing => ""
    case Sized(bytes) => bytes
    case InChunks(chunks, _, _) => Payload(chunks)
  }

  /** The header lines behind the last chunk. */
  function Trailer(c: Content): seq<Header> { if c.InChunks? then c.trailer else [] }

  function Events(r: Request): seq<Event> {
    [MessageBegin, Data(Url, r.target)] + HeaderEvents(AllHeaders(r)) + [HeadersComplete]
    + (if Bytes(r.content) == "" then [] else [Data(Body, Bytes(r.content))])
    + HeaderEvents(Trailer(r.content)) + [MessageComplete]
  }

  /** Another protocol takes over behind the head. */
  predicate Upgrades(r: Request) { r.method_ == CONNECT || Mentions(r.headers, HUpgrade) }

  /**
   * The connection stays open for another request: from HTTP/1.1 on unless a header, in front of the body or
   * behind it, says close, and before that only if one says keep-alive. A minor number of 0 counts as before.
   */
  predicate Persists(r: Request) {
    var all := AllHeaders(r) + Trailer(r.content);
    var v := VersionOf(r.version);
    if v.Some? && v.value.0 > 0 && v.value.1 > 0 then !Says(all, HConnection, "close") else Says(all, HConnection, "keep-alive")
  }

  // ---------- the requests ----------

  predicate Acceptable(r: Request) {
    && IsTarget(r.method_, r.target) && VersionOf(r.version).Some? && AreHeaders(r.headers) && IsContent(r.content)
    && (!r.content.InChunks? ==> !Says(r.headers, HTransferEncoding, "chunked"))
    && (Upgrades(r) ==> r.content.Nothing?)
  }

  predicate IsContent(c: Content) {
    match c
    case Nothing => true
    case Sized(bytes) => |bytes| < ULLONG_MAX
    case InChunks(chunks, last, trailer) =>
      && (forall i :: 0 <= i < |chunks| ==> WellFormed(chunks[i])) && IsLast(last)
      && AreHeaders(trailer) && |Lines(trailer)| + 2 <= HTTP_MAX_HEADER_SIZE
  }

  /** Header bytes still counted when a request is over: the trailer of a body in chunks. */
  function LeftCounted(c: Content): nat { if c.InChunks? then |Lines(c.trailer)| + 2 else 0 }

  /** Every head stays within the limit on header bytes. */
  predicate HeadsFit(nread: nat, rs: seq<Request>)
    decreases |rs|
  {
    rs == [] || (nread + |Head(rs[0])| <= HTTP_MAX_HEADER_SIZE && HeadsFit(LeftCounted(rs[0].content), rs[1..]))
  }

  // ---------- request line ----------

  lemma WordByte(s: Session, m: Method, k: nat)
    requires 1 <= k < |Word(m)| && Inside(s.parser, m, k) && s.parser.nread < HTTP_MAX_HEADER_SIZE
    ensures Advance(s, Word(m)[k]) == Session(
      s.parser.(nread := s.parser.nread + 1, index := k + 1, method_ := Current(m, k + 1)), s.log, s.consumed + 1)
  {
    WordNext(m, k);
    WordBytes(m, k);
    hide Word, Current, OtherMethod, MethodLiteral;
    assert Step(s.parser, Word(m)[k]) == ExecMethod(Counted(s.parser), Word(m)[k]);
  }

  lemma {:induction false} RunWordBytes(s: Session, m: Method, k: nat)
    requires 1 <= k <= |Word(m)| && Inside(s.parser, m, k)
    requires s.parser.nread + |Word(m)| - k <= HTTP_MAX_HEADER_SIZE
    ensures var n := |Word(m)| - k;
      Run(s, Word(m)[k..]) == Session(
        s.parser.(nread := s.parser.nread + n, index := |Word(m)|, method_ := Current(m, |Word(m)|)), s.log, s.consumed + n)
    decreases |Word(m)| - k
  {
    hide Step, Word, Current;
    if k < |Word(m)| {
      WordByte(s, m, k);
      assert Word(m)[k..][1..] == Word(m)[k + 1..];
      RunWordBytes(Advance(s, Word(m)[k]), m, k + 1);
    }
  }

  lemma FirstMethodByte(s: Session, m: Method)
    requires !Halted(s.parser) && s.parser.state == StartReq && s.parser.nread < HTTP_MAX_HEADER_SIZE
    ensures |Word(m)| >= 3
    ensures Advance(s, Word(m)[0]) == Session(
      s.parser.(nread := s.parser.nread + 1, flags := NO_FLAGS, contentLength := ULLONG_MAX, method_ := Current(m, 1),
                index := 1, state := ReqMethod), Log(s.log, MessageBegin), s.consumed + 1)
  {
    WordFirst(m);
    LogOne(s.log, MessageBegin);
    hide Word, Current, FirstMethod, Log, LogAll;
  }

  lemma MethodBlank(s: Session, m: Method)
    requires !Halted(s.parser) && s.parser.state == ReqMethod && s.parser.method_ == m && s.parser.index == |MethodLiteral(m)|
    requires s.parser.nread < HTTP_MAX_HEADER_SIZE
    ensures Advance(s, ' ') == Session(
      s.parser.(nread := s.parser.nread + 1, index := s.parser.index + 1, state := ReqSpacesBeforeUrl), s.log, s.consumed + 1)
  {
    hide MethodLiteral;
    assert Step(s.parser, ' ') == ExecMethod(Counted(s.parser), ' ');
  }

  /** The parser behind a method word and its blank. */
  function BehindWord(p: Parser, m: Method): Parser {
    p.(nread := p.nread + |Word(m)| + 1, flags := NO_FLAGS, contentLength := ULLONG_MAX, method_ := m,
       index := |Word(m)| + 1, state := ReqSpacesBeforeUrl)
  }

  lemma RunMethod(s: Session, m: Method)
    requires !Halted(s.parser) && s.parser.state == StartReq && s.parser.nread + |Word(m)| + 1 <= HTTP_MAX_HEADER_SIZE
    ensures Run(s, Word(m) + " ") == Session(BehindWord(s.parser, m), Log(s.log, MessageBegin), s.consumed + |Word(m)| + 1)
  {
    hide Step, Run, Advance, Word, Current, Log, MethodLiteral;
    CurrentEnds(m);
    var w := Word(m);
    RunSplit(s, w, " ");
    RunWholeWord(s, m);
    var u := Run(s, w);
    MethodBlank(u, m);
    RunSingle(u, ' ');
  }

  lemma RunWholeWord(s: Session, m: Method)
    requires !Halted(s.parser) && s.parser.state == StartReq && s.parser.nread + |Word(m)| <= HTTP_MAX_HEADER_SIZE
    ensures Run(s, Word(m)) == Session(
      s.parser.(nread := s.parser.nread + |Word(m)|, flags := NO_FLAGS, contentLength := ULLONG_MAX, method_ := m,
                index := |Word(m)|, state := ReqMethod), Log(s.log, MessageBegin), s.consumed + |Word(m)|)
  {
    hide Step, Run, Advance, Word, Current, Log, MethodLiteral;
    WordFirst(m);
    FirstMethodByte(s, m);
    CurrentEnds(m);
    var w := Word(m);
    assert w == [w[0]] + w[1..];
    RunOne(s, w[0], w[1..]);
    RunWordBytes(Advance(s, w[0]), m, 1);
  }

  lemma RunUrl(s: Session, t: string)
    requires !Halted(s.parser) && s.parser.state == ReqSpacesBeforeUrl && IsTarget(s.parser.method_, t)
    requires s.parser.nread + |t| + 1 <= HTTP_MAX_HEADER_SIZE
    ensures Run(s, t + " ") == Session(
      s.parser.(nread := s.parser.nread + |t| + 1, state := ReqHttpStart), Log(s.log, Data(Url, t)), s.consumed + |t| + 1)
  {
    hide Step, Run, Log, IsTarget;
    TargetIsUnbroken(s.parser.method_, t);
    RunTarget(s, t, ' ');
    assert t + " " == t + [' '];
  }

  /** A byte of the version that is as expected. */
  lemma VersionByte(s: Session, ch: char, next: State)
    requires !Halted(s.parser) && s.parser.nread < HTTP_MAX_HEADER_SIZE
    requires (s.parser.state, ch, next) in {
      (ReqHttpStart, 'H', ReqHttpH), (ReqHttpH, 'T', ReqHttpHT), (ReqHttpHT, 'T', ReqHttpHTT), (ReqHttpHTT, 'P', ReqHttpHTTP),
      (ReqHttpHTTP, '/', ReqFirstHttpMajor), (ReqLineAlmostDone, '\n', HeaderFieldStart)}
    ensures Advance(s, ch) == Session(s.parser.(nread := s.parser.nread + 1, state := next), s.log, s.consumed + 1)
  {
    hide Log, LogAll;
    LogNone(s.log);
    assert Step(s.parser, ch) == ExecVersion(Counted(s.parser), ch);
  }

  /** A text and the sessions its bytes lead through. */
  lemma {:induction false} RunChain(s: seq<Session>, c: string)
    requires |s| == |c| + 1
    requires forall i :: 0 <= i < |c| ==> !Halted(s[i].parser) && Advance(s[i], c[i]) == s[i + 1]
    ensures Run(s[0], c) == s[|c|]
    decreases |c|
  {
    hide Advance;
    if c == "" {
      RunNothing(s[0]);
    } else {
      var t, d := s[1..], c[1..];
      forall i | 0 <= i < |d| ensures !Halted(t[i].parser) && Advance(t[i], d[i]) == t[i + 1] {
        assert t[i] == s[i + 1] && d[i] == c[i + 1];
      }
      RunChain(t, d);
    }
  }

  lemma RunProtocol(s: Session)
    requires !Halted(s.parser) && s.parser.state == ReqHttpStart && s.parser.nread + 5 <= HTTP_MAX_HEADER_SIZE
    ensures Run(s, "HTTP/") == Session(s.parser.(nread := s.parser.nread + 5, state := ReqFirstHttpMajor), s.log, s.consumed + 5)
  {
    hide Advance, Run;
    var a := Advance(s, 'H');
    VersionByte(s, 'H', ReqHttpH);
    var b := Advance(a, 'T');
    VersionByte(a, 'T', ReqHttpHT);
    var c := Advance(b, 'T');
    VersionByte(b, 'T', ReqHttpHTT);
    var d := Advance(c, 'P');
    VersionByte(c, 'P', ReqHttpHTTP);
    var e := Advance(d, '/');
    VersionByte(d, '/', ReqFirstHttpMajor);
    RunChain([s, a, b, c, d, e], "HTTP/");
  }

  lemma RunVersion(s: Session, version: string)
    requires !Halted(s.parser) && s.parser.state == ReqHttpStart && VersionOf(version).Some?
    requires s.parser.nread + |version| + 7 <= HTTP_MAX_HEADER_SIZE
    ensures var v := VersionOf(version).value;
      Run(s, "HTTP/" + (version + "\r") + "\n") == Session(
        s.parser.(nread := s.parser.nread + |version| + 7, state := HeaderFieldStart, major := v.0, minor := v.1), s.log,
        s.consumed + |version| + 7)
  {
    hide Run, Advance, Step, VersionOf;
    RunSplit(s, "HTTP/" + (version + "\r"), "\n");
    RunSplit(s, "HTTP/", version + "\r");
    RunProtocol(s);
    var t := Run(s, "HTTP/");
    VersionIsUnbroken(version);
    VersionExactly(t, version, CR);
    assert version + "\r" == version + [CR];
    var u := Run(t, version + "\r");
    VersionByte(u, '\n', HeaderFieldStart);
    RunSingle(u, '\n');
  }

  lemma VersionIsUnbroken(t: string)
    requires VersionOf(t).Some?
    ensures NoLineBreak(t)
  {
    var k := FirstDot(t);
    forall i | 0 <= i < |t| ensures t[i] != CR && t[i] != LF {
      if i < k {
        assert Decimal.IsDigit(t[..k][i]);
      } else if i > k {
        assert Decimal.IsDigit(t[k + 1..][i - k - 1]);
      }
    }
  }

  function BehindLine(p: Parser, r: Request): Parser
    requires VersionOf(r.version).Some?
  {
    var v := VersionOf(r.version).value;
    BehindWord(p, r.method_).(nread := p.nread + |RequestLine(r)|, state := HeaderFieldStart, major := v.0, minor := v.1)
  }

  lemma RunRequestLine(s: Session, r: Request)
    requires !Halted(s.parser) && s.parser.state == StartReq && IsTarget(r.method_, r.target) && VersionOf(r.version).Some?
    requires s.parser.nread + |RequestLine(r)| <= HTTP_MAX_HEADER_SIZE
    ensures Run(s, RequestLine(r)) == Session(
      BehindLine(s.parser, r), s.log + [MessageBegin, Data(Url, r.target)], s.consumed + |RequestLine(r)|)
  {
    hide Step, Run, Log, Word, IsTarget, Halted, VersionOf;
    LogPlain(s.log, MessageBegin);
    LogUrl(s.log, r.target);
    var a := Word(r.method_) + " " + (r.target + " ");
    RunMethodAndUrl(s, r);
    RunSplit(s, a, "HTTP/" + (r.version + "\r") + "\n");
    RunVersion(Run(s, a), r.version);
  }

  lemma RunMethodAndUrl(s: Session, r: Request)
    requires !Halted(s.parser) && s.parser.state == StartReq && IsTarget(r.method_, r.target)
    requires s.parser.nread + |Word(r.method_)| + |r.target| + 2 <= HTTP_MAX_HEADER_SIZE
    ensures var a := Word(r.method_) + " " + (r.target + " ");
      var q := Run(s, a);
      && q.parser == BehindWord(s.parser, r.method_).(nread := s.parser.nread + |a|, state := ReqHttpStart)
      && q.log == Log(Log(s.log, MessageBegin), Data(Url, r.target)) && q.consumed == s.consumed + |a| && !Halted(q.parser)
  {
    hide Step, Run, Log, Word, IsTarget;
    RunSplit(s, Word(r.method_) + " ", r.target + " ");
    RunMethod(s, r.method_);
    RunUrl(Run(s, Word(r.method_) + " "), r.target);
  }

  lemma LogUrl(log: seq<Event>, target: string)
    ensures Log(log + [MessageBegin], Data(Url, target)) == log + [MessageBegin, Data(Url, target)]
  {
    assert log + [MessageBegin] + [Data(Url, target)] == log + [MessageBegin, Data(Url, target)];
  }

  lemma LineEndsInUrl(log: seq<Event>, target: string)
    ensures !EndsIn(log + [MessageBegin, Data(Url, target)], Field)
  {
  }

  // ---------- all headers ----------

  lemma {:induction false} SaysJoin(a: seq<Header>, b: seq<Header>, kind: HeaderState, word: string)
    ensures Says(a + b, kind, word) <==> Says(a, kind, word) || Says(b, kind, word)
    ensures Mentions(a + b, kind) <==> Mentions(a, kind) || Mentions(b, kind)
    decreases |a|
  {
    hide KindOf, IsWordValue, Says, Mentions;
    if a == [] {
      assert a + b == b;
      NobodySays(kind, word);
    } else {
      assert (a + b)[1..] == a[1..] + b;
      SaysFirst(a + b, kind, word);
      SaysFirst(a, kind, word);
      MentionsFirst(a + b, kind);
      MentionsFirst(a, kind);
      SaysJoin(a[1..], b, kind, word);
    }
  }

  lemma NobodySays(kind: HeaderState, word: string)
    ensures !Says([], kind, word) && !Mentions([], kind)
  {
  }

  lemma FlagsJoin(f: Flags, a: seq<Header>, b: seq<Header>)
    ensures FlagsFrom(f, a + b) == FlagsFrom(FlagsFrom(f, a), b)
  {
    hide Says, Mentions;
    SaysJoin(a, b, HTransferEncoding, "chunked");
    SaysJoin(a, b, HConnection, "keep-alive");
    SaysJoin(a, b, HConnection, "close");
    SaysJoin(a, b, HUpgrade, "");
  }

  /** The two announcements, and what they set. */
  lemma LengthSetsNoFlag(f: Flags, value: string)
    ensures FlagsFrom(f, [Header(LENGTH_NAME, value)]) == f
  {
    var h := Header(LENGTH_NAME, value);
    assert Lowered(h.name) == "content-length";
    assert KindOf(h) == HContentLength;
  }

  lemma CodingIsKnown()
    ensures IsHeader(CODING) && KindOf(CODING) == HTransferEncoding
  {
    hide Token;
    TransferEncodingIsToken();
    assert Lowered(CODING.name) == "transfer-encoding";
  }

  lemma TransferEncodingIsToken()
    ensures IsToken("Transfer-Encoding")
  {
  }

  lemma CodingIsChunked()
    ensures IsWordValue(CODING.value, "chunked")
  {
    var v := CODING.value;
    assert v[..7] == v;
    assert Lowered(v) == "chunked";
  }

  lemma CodingSetsChunked(f: Flags)
    ensures IsHeader(CODING) && FlagsFrom(f, [CODING]) == f.(chunked := true)
  {
    hide IsHeader, KindOf, IsWordValue;
    CodingIsKnown();
    CodingIsChunked();
    assert KindOf([CODING][0]) == HTransferEncoding;
  }

  /** The parser behind all headers: only positions, the match state, the flags and the announced length have changed. */
  predicate BehindHeaders(p: Parser, q: Parser, n: nat, r: Request) {
    && q == p.(nread := p.nread + n, state := q.state, index := q.index, headerState := q.headerState,
               contentLength := if r.content.Sized? then |r.content.bytes| else p.contentLength,
               flags := FlagsFrom(p.flags, AllHeaders(r)))
    && AtHeader(q)
  }

  lemma RunAllHeaders(s: Session, r: Request)
    requires AtHeader(s.parser) && !EndsIn(s.log, Field) && AreHeaders(r.headers) && IsContent(r.content)
    requires s.parser.nread + |Lines(AllHeaders(r))| <= HTTP_MAX_HEADER_SIZE
    ensures var q := Run(s, Lines(AllHeaders(r)));
      && BehindHeaders(s.parser, q.parser, |Lines(AllHeaders(r))|, r)
      && q.log == s.log + HeaderEvents(AllHeaders(r)) && q.consumed == s.consumed + |Lines(AllHeaders(r))|
  {
    hide Step, Run, Line, Lines, IsHeader, EndsIn, HeaderEvents, Decimal.Numeral, WellFormed, FlagsFrom, IsLast;
    match r.content
    case Nothing =>
      assert AllHeaders(r) == r.headers;
      RunHeaders(s, r.headers);
    case Sized(bytes) =>
      var h := Announcement(r.content)[0];
      LinesAppend(r.headers, h);
      RunHeaders(s, r.headers);
      RunSplit(s, Lines(r.headers), Line(h));
      RunLength(Run(s, Lines(r.headers)), |bytes|);
      JoinTwo(s.log, HeaderEvents(r.headers), [Data(Field, h.name), Data(FieldValue, h.value)]);
      FlagsJoin(s.parser.flags, r.headers, [h]);
      LengthSetsNoFlag(FlagsFrom(s.parser.flags, r.headers), h.value);
    case InChunks(_, _, _) =>
      CodingSetsChunked(s.parser.flags);
      RunHeaders(s, AllHeaders(r));
  }

  // ---------- the end of the head ----------

  lemma HeadReturn(s: Session)
    requires AtHeader(s.parser) && s.parser.nread < HTTP_MAX_HEADER_SIZE
    ensures Advance(s, '\r') == Session(s.parser.(nread := s.parser.nread + 1, state := HeadersAlmostDone), s.log, s.consumed + 1)
  {
    LogNone(s.log);
    hide Log, LogAll, ExecHeadersAlmostDone;
    var p := Counted(s.parser);
    assert Step(s.parser, '\r') == if s.parser.state == HeaderFieldStart then ExecFieldStart(p, '\r') else ExecLws(p, '\r');
  }

  /** The message ends with its head. */
  predicate EndsAtHead(p: Parser) {
    p.flags.upgrade || p.method_ == CONNECT || (!p.flags.chunked && (p.contentLength == 0 || p.contentLength == ULLONG_MAX))
  }

  /** The parser behind the empty line that ends a head. */
  function BehindEmptyLine(p: Parser): Parser {
    p.(nread := 0, upgrade := p.flags.upgrade || p.method_ == CONNECT,
       state := if EndsAtHead(p) then NewMessage(p) else if p.flags.chunked then ChunkSizeStart else BodyIdentity)
  }

  lemma HeadFeed(s: Session)
    requires !Halted(s.parser) && s.parser.state == HeadersAlmostDone && s.parser.nread < HTTP_MAX_HEADER_SIZE && !s.parser.flags.trailing
    ensures var log := Log(s.log, HeadersComplete);
      Advance(s, '\n') == Session(BehindEmptyLine(s.parser),
        if EndsAtHead(s.parser) then Log(log, MessageComplete) else log, s.consumed + 1)
  {
    LogOne(s.log, HeadersComplete);
    LogTwo(s.log, HeadersComplete, MessageComplete);
    hide Log, LogAll;
    assert Step(s.parser, '\n') == ExecHeadersAlmostDone(Counted(s.parser), '\n');
    assert [HeadersComplete] + [] == [HeadersComplete];
  }

  lemma RunHeadEnd(s: Session)
    requires AtHeader(s.parser) && s.parser.nread + 2 <= HTTP_MAX_HEADER_SIZE && !s.parser.flags.trailing
    ensures Run(s, "\r\n") == Session(BehindEmptyLine(s.parser),
      s.log + (if EndsAtHead(s.parser) then [HeadersComplete, MessageComplete] else [HeadersComplete]), s.consumed + 2)
  {
    hide Step, Run, Advance, Log, LogAll;
    HeadReturn(s);
    HeadFeed(Advance(s, '\r'));
    RunTwo(s, '\r', '\n');
    LogCompletion(s.log);
  }

  /** A line feed alone ends a head, too. */
  lemma HeadEndsByFeed(s: Session)
    requires AtHeader(s.parser) && s.parser.nread < HTTP_MAX_HEADER_SIZE && !s.parser.flags.trailing
    ensures Run(s, "\n") == Session(BehindEmptyLine(s.parser),
      s.log + (if EndsAtHead(s.parser) then [HeadersComplete, MessageComplete] else [HeadersComplete]), s.consumed + 1)
  {
    hide Log, LogAll, Run, Step, ShouldKeepAlive, EndsAtHead;
    LogOne(s.log, HeadersComplete);
    LogTwo(s.log, HeadersComplete, MessageComplete);
    LogCompletion(s.log);
    RunSingle(s, '\n');
    FeedStep(s.parser);
  }

  lemma FeedStep(p: Parser)
    requires AtHeader(p) && p.nread < HTTP_MAX_HEADER_SIZE && !p.flags.trailing
    ensures var r := Step(p, '\n');
      && r.parser == BehindEmptyLine(p)
      && r.events == (if EndsAtHead(p) then [HeadersComplete] + [MessageComplete] else [HeadersComplete])
  {
    hide ExecHeadersAlmostDone, BehindEmptyLine;
    var q := Counted(p);
    assert Step(p, '\n') == ExecHeadersAlmostDone(q.(state := HeadersAlmostDone), '\n') by {
      assert Step(p, '\n') == if p.state == HeaderFieldStart then ExecFieldStart(q, '\n') else ExecLws(q, '\n');
    }
    HeadersEndStep(q.(state := HeadersAlmostDone));
    SameEnd(p, q.(state := HeadersAlmostDone));
  }

  lemma HeadersEndStep(p: Parser)
    requires !p.flags.trailing
    ensures ExecHeadersAlmostDone(p, '\n') ==
      Result(BehindEmptyLine(p), if EndsAtHead(p) then [HeadersComplete] + [MessageComplete] else [HeadersComplete])
  {
    assert [HeadersComplete] + [] == [HeadersComplete];
  }

  /** The byte count and the state in front of the line feed do not matter. */
  lemma SameEnd(p: Parser, q: Parser)
    requires q == p.(nread := q.nread, state := q.state)
    ensures BehindEmptyLine(p) == BehindEmptyLine(q) && EndsAtHead(p) == EndsAtHead(q)
  {
  }

  lemma LogCompletion(log: seq<Event>)
    ensures Log(log, HeadersComplete) == log + [HeadersComplete]
    ensures Log(Log(log, HeadersComplete), MessageComplete) == log + [HeadersComplete, MessageComplete]
  {
    assert log + [HeadersComplete] + [MessageComplete] == log + [HeadersComplete, MessageComplete];
  }

  lemma LogPlain(log: seq<Event>, e: Event)
    requires !e.Data?
    ensures Log(log, e) == log + [e]
  {
  }

  // ---------- whole requests ----------

  /** The message ends with its head: an upgrade, or no body. */
  predicate HeadOnly(r: Request) { Upgrades(r) || r.content.Nothing? || r.content == Sized("") }

  /** The parser behind a head. */
  predicate HeadRead(q: Parser, r: Request) {
    && q.errno == OK && q.nread == 0 && q.upgrade == Upgrades(r) && q.flags == FlagsFrom(NO_FLAGS, AllHeaders(r))
    && VersionOf(r.version) == Some((q.major, q.minor))
    && q.state == (if HeadOnly(r) then NewMessage(q) else if r.content.InChunks? then ChunkSizeStart else BodyIdentity)
    && (r.content.Sized? ==> q.contentLength == |r.content.bytes|)
  }

  function HeadEvents(r: Request): seq<Event> {
    [MessageBegin, Data(Url, r.target)] + HeaderEvents(AllHeaders(r))
    + (if HeadOnly(r) then [HeadersComplete, MessageComplete] else [HeadersComplete])
  }

  /** What the headers say of the body. */
  lemma FlagsOfHead(r: Request)
    requires Acceptable(r)
    ensures var f := FlagsFrom(NO_FLAGS, AllHeaders(r));
      !f.trailing && f.chunked == r.content.InChunks? && (f.upgrade || r.method_ == CONNECT <==> Upgrades(r))
  {
    hide Says, Mentions, WellFormed, IsLast, IsHeader, IsTarget;
    FlagsJoin(NO_FLAGS, r.headers, Announcement(r.content));
    var before := FlagsFrom(NO_FLAGS, r.headers);
    match r.content
    case Nothing => NoFlagsFrom(before);
    case Sized(bytes) => LengthSetsNoFlag(before, Decimal.Numeral(|bytes|));
    case InChunks(_, _, _) => CodingSetsChunked(before);
  }

  lemma RunHead(s: Session, r: Request)
    requires !Halted(s.parser) && s.parser.state == StartReq && Acceptable(r)
    requires s.parser.nread + |Head(r)| <= HTTP_MAX_HEADER_SIZE
    ensures var q := Run(s, Head(r));
      HeadRead(q.parser, r) && q.log == s.log + HeadEvents(r) && q.consumed == s.consumed + |Head(r)|
  {
    hide Step, Run, Word, IsTarget, IsHeader, Lines, HeaderEvents, EndsIn, AllHeaders, WellFormed, FlagsFrom, RequestLine, VersionOf,
         ShouldKeepAlive, IsLast, Says;
    var line, hs := RequestLine(r), Lines(AllHeaders(r));
    RunSplit(s, line + hs, "\r\n");
    RunSplit(s, line, hs);
    RunRequestLine(s, r);
    LineEndsInUrl(s.log, r.target);
    RunAllHeaders(Run(s, line), r);
    FlagsOfHead(r);
    var u := Run(s, line + hs);
    RunHeadEnd(u);
    SameKeepAlive(u.parser, Run(u, "\r\n").parser);
    JoinEvents(s.log, [MessageBegin, Data(Url, r.target)], HeaderEvents(AllHeaders(r)),
               if HeadOnly(r) then [HeadersComplete, MessageComplete] else [HeadersComplete]);
  }

  lemma JoinEvents(a: seq<Event>, b: seq<Event>, c: seq<Event>, d: seq<Event>)
    ensures a + b + c + d == a + (b + c + d)
  {
  }

  /** What is delivered behind the head. */
  function BodyEvents(c: Content): seq<Event> {
    (if Bytes(c) == "" then [] else [Data(Body, Bytes(c))]) + HeaderEvents(Trailer(c)) + [MessageComplete]
  }

  lemma EventsOfHead(r: Request)
    requires Acceptable(r)
    ensures Events(r) == HeadEvents(r) + (if HeadOnly(r) then [] else BodyEvents(r.content))
  {
    hide Says, Mentions, WellFormed, IsLast, IsHeader, IsTarget, HeaderEvents, AllHeaders, Payload, VersionOf;
    var front := [MessageBegin, Data(Url, r.target)] + HeaderEvents(AllHeaders(r));
    if HeadOnly(r) {
      NoLines();
      assert front + [HeadersComplete] + [] + [] + [MessageComplete] == front + [HeadersComplete, MessageComplete] + [];
    } else {
      var body := if Bytes(r.content) == "" then [] else [Data(Body, Bytes(r.content))];
      JoinEvents(front + [HeadersComplete], body, HeaderEvents(Trailer(r.content)), [MessageComplete]);
    }
  }

  /** The log behind body data that follow the end of the headers. */
  lemma LogBody(log: seq<Event>, bytes: string)
    requires log != [] && !log[|log| - 1].Data?
    ensures Log(log, Data(Body, bytes)) == log + [Data(Body, bytes)]
    ensures !EndsIn(log, Field) && !EndsIn(log + [Data(Body, bytes)], Field)
  {
  }

  lemma HeadEnds(log: seq<Event>, r: Request)
    requires !HeadOnly(r)
    ensures var before := log + HeadEvents(r); before != [] && before[|before| - 1] == HeadersComplete
  {
    hide HeaderEvents, AllHeaders, Mentions;
  }

  /** The flags behind the body: those of the head, and those of the trailer. */
  function FinalFlags(f: Flags, c: Content): Flags {
    if c.InChunks? then FlagsFrom(f.(trailing := true), c.trailer) else f
  }

  /** The body behind a head is delivered, and completes the message. */
  lemma RunContent(s: Session, c: Content)
    requires !Halted(s.parser) && s.parser.nread == 0 && IsContent(c) && s.parser.flags.chunked == c.InChunks?
    requires s.log != [] && !s.log[|s.log| - 1].Data?
    requires match c
      case Nothing => false
      case Sized(bytes) => s.parser.state == BodyIdentity && s.parser.contentLength == |bytes| > 0
      case InChunks(_, _, _) => s.parser.state == ChunkSizeStart
    ensures var q := Run(s, BodyText(c));
      && q.parser == s.parser.(state := NewMessage(q.parser), nread := LeftCounted(c), flags := FinalFlags(s.parser.flags, c),
                               contentLength := 0, index := q.parser.index, headerState := q.parser.headerState)
      && q.log == s.log + BodyEvents(c) && q.consumed == s.consumed + |BodyText(c)|
  {
    hide Step, Run, Log, WellFormed, EncodeAll, IsHeader, HeaderEvents, Lines, IsLast, ShouldKeepAlive, FlagsFrom;
    LogBody(s.log, Bytes(c));
    match c
    case Sized(bytes) =>
      NoLines();
      IdentityBody(s, bytes);
      LogPlain(s.log + [Data(Body, bytes)], MessageComplete);
      JoinEvents(s.log, [Data(Body, bytes)], [], [MessageComplete]);
      SameKeepAlive(s.parser.(contentLength := 0, state := MessageDone), Run(s, BodyText(c)).parser);
    case InChunks(_, _, _) =>
      RunChunkedContent(s, c);
  }

  /** Whether a connection stays open depends on the version and the flags only. */
  lemma SameKeepAlive(p: Parser, q: Parser)
    requires p.major == q.major && p.minor == q.minor && p.flags == q.flags
    ensures NewMessage(p) == NewMessage(q)
  {
  }

  lemma RunChunkedContent(s: Session, c: Content)
    requires AtChunk(s.parser) && IsContent(c) && c.InChunks?
    requires s.log != [] && !s.log[|s.log| - 1].Data?
    ensures var q := Run(s, BodyText(c));
      && q.parser == s.parser.(state := NewMessage(q.parser), nread := LeftCounted(c), flags := FinalFlags(s.parser.flags, c),
                               contentLength := 0, index := q.parser.index, headerState := q.parser.headerState)
      && q.log == s.log + BodyEvents(c) && q.consumed == s.consumed + |BodyText(c)|
  {
    hide Step, Run, Log, WellFormed, EncodeAll, IsHeader, HeaderEvents, Lines, IsLast, EndsIn, Payload, SizeLine, Says, Mentions, ShouldKeepAlive;
    var front := EncodeAll(c.chunks) + SizeLine(c.last);
    var body := if Bytes(c) == "" then [] else [Data(Body, Bytes(c))];
    LogBody(s.log, Bytes(c));
    PayloadNonempty(c.chunks);
    RunToTrailer(s, c.chunks, c.last);
    var t := Run(s, front);
    assert t.log == s.log + body;
    RunSplit(s, front, Lines(c.trailer));
    RunHeaders(t, c.trailer);
    var u := Run(t, Lines(c.trailer));
    RunSplit(s, front + Lines(c.trailer), "\r\n");
    TrailerEnd(u);
    LogPlain(u.log, MessageComplete);
    JoinEvents(s.log, body, HeaderEvents(c.trailer), [MessageComplete]);
    SameKeepAlive(u.parser.(nread := u.parser.nread + 2), Run(u, "\r\n").parser);
  }

  lemma PayloadNonempty(cs: seq<Chunk>)
    requires forall i :: 0 <= i < |cs| ==> WellFormed(cs[i])
    ensures Payload(cs) == "" <==> cs == []
  {
  }

  /** The state behind a request. */
  function StateBehind(r: Request): State { if Persists(r) then StartReq else Dead }

  lemma PersistsByFlags(p: Parser, r: Request)
    requires Acceptable(r) && VersionOf(r.version) == Some((p.major, p.minor))
    requires p.flags == FinalFlags(FlagsFrom(NO_FLAGS, AllHeaders(r)), r.content)
    ensures NewMessage(p) == StateBehind(r)
  {
    hide Says, Mentions, VersionOf, AllHeaders, IsHeader, IsTarget, WellFormed, IsLast;
    var a, b := AllHeaders(r), Trailer(r.content);
    SaysJoin(a, b, HConnection, "close");
    SaysJoin(a, b, HConnection, "keep-alive");
    NobodySays(HConnection, "close");
    NobodySays(HConnection, "keep-alive");
  }

  /** A request is delivered part by part, byte for byte; behind it the parser is ready for the next one, closed, or
      stopped for another protocol. */
  lemma RunRequest(s: Session, r: Request)
    requires !Halted(s.parser) && s.parser.state == StartReq && Acceptable(r)
    requires s.parser.nread + |Head(r)| <= HTTP_MAX_HEADER_SIZE
    ensures var q := Run(s, Text(r));
      && q.parser.errno == OK && q.parser.upgrade == Upgrades(r) && q.parser.state == StateBehind(r)
      && q.parser.nread == LeftCounted(r.content)
      && q.log == s.log + Events(r) && q.consumed == s.consumed + |Text(r)|
  {
    hide Step, Run, Log, Head, HeadEvents, BodyEvents, Acceptable, IsContent, StateBehind, FlagsFrom, AllHeaders, VersionOf, Mentions,
         ShouldKeepAlive;
    RunSplit(s, Head(r), BodyText(r.content));
    RunHead(s, r);
    EventsOfHead(r);
    var t := Run(s, Head(r));
    if HeadOnly(r) {
      NoBody(r);
      RunNothing(t);
      PersistsByFlags(t.parser, r);
      assert s.log + HeadEvents(r) + [] == s.log + HeadEvents(r);
      assert HeadEvents(r) + [] == HeadEvents(r);
    } else {
      HeadEnds(s.log, r);
      ContentOf(r);
      RunContent(t, r.content);
      PersistsByFlags(Run(t, BodyText(r.content)).parser, r);
      JoinTwo(s.log, HeadEvents(r), BodyEvents(r.content));
    }
  }

  lemma NoBody(r: Request)
    requires Acceptable(r) && HeadOnly(r)
    ensures BodyText(r.content) == "" && LeftCounted(r.content) == 0 && !r.content.InChunks?
    ensures Text(r) == Head(r)
  {
    hide Head, Mentions, Says, IsHeader, IsTarget, VersionOf;
  }

  lemma ContentOf(r: Request)
    requires Acceptable(r) && !HeadOnly(r)
    ensures IsContent(r.content) && !Upgrades(r) && !r.content.Nothing? && (r.content.Sized? ==> r.content.bytes != "")
    ensures FlagsFrom(NO_FLAGS, AllHeaders(r)).chunked == r.content.InChunks?
  {
    FlagsOfHead(r);
  }

  function Texts(rs: seq<Request>): string { if rs == [] then "" else Text(rs[0]) + Texts(rs[1..]) }

  function AllEvents(rs: seq<Request>): seq<Event> { if rs == [] then [] else Events(rs[0]) + AllEvents(rs[1..]) }

  /** Requests that can follow each other on one connection: only the last may close it or leave the protocol. */
  predicate Pipelined(rs: seq<Request>) {
    && (forall i :: 0 <= i < |rs| ==> Acceptable(rs[i]))
    && (forall i :: 0 <= i < |rs| - 1 ==> Persists(rs[i]) && !Upgrades(rs[i]))
  }

  /** The parser behind requests. */
  predicate BehindRequests(p: Parser, rs: seq<Request>) {
    p.errno == OK && (if rs == [] then p.state == StartReq && !p.upgrade
                      else p.state == StateBehind(rs[|rs| - 1]) && p.upgrade == Upgrades(rs[|rs| - 1]))
  }

  lemma PipelinedTail(rs: seq<Request>)
    requires rs != [] && Pipelined(rs)
    ensures Acceptable(rs[0]) && Pipelined(rs[1..]) && (|rs| > 1 ==> Persists(rs[0]) && !Upgrades(rs[0]))
  {
    hide Acceptable, Persists, Upgrades;
    var t := rs[1..];
    assert forall i :: 0 <= i < |t| ==> t[i] == rs[i + 1];
  }

  lemma BehindTail(p: Parser, rs: seq<Request>)
    requires |rs| > 1 && BehindRequests(p, rs[1..])
    ensures BehindRequests(p, rs)
  {
  }

  /** Requests that follow each other on one connection are delivered one after the other. */
  lemma {:induction false} RunRequests(s: Session, rs: seq<Request>)
    requires !Halted(s.parser) && s.parser.state == StartReq && Pipelined(rs) && HeadsFit(s.parser.nread, rs)
    ensures var q := Run(s, Texts(rs));
      BehindRequests(q.parser, rs) && q.log == s.log + AllEvents(rs) && q.consumed == s.consumed + |Texts(rs)|
    decreases |rs|
  {
    hide Step, Run, Text, Head, Events, Acceptable, Persists, Upgrades, Pipelined;
    if rs == [] {
      RunNothing(s);
      assert s.log + [] == s.log;
    } else {
      PipelinedTail(rs);
      RunSplit(s, Text(rs[0]), Texts(rs[1..]));
      RunRequest(s, rs[0]);
      var t := Run(s, Text(rs[0]));
      if |rs| == 1 {
        OneRequest(rs, t);
      } else {
        RunRequests(t, rs[1..]);
        BehindTail(Run(t, Texts(rs[1..])).parser, rs);
        JoinTwo(s.log, Events(rs[0]), AllEvents(rs[1..]));
      }
    }
  }

  lemma OneRequest(rs: seq<Request>, t: Session)
    requires |rs| == 1
    ensures rs[1..] == [] && Texts(rs) == Text(rs[0]) && AllEvents(rs) == Events(rs[0]) && Run(t, Texts(rs[1..])) == t
  {
    hide Text, Events;
    assert rs[1..] == [];
    assert Text(rs[0]) + "" == Text(rs[0]);
  }

  // ---------- between and behind requests ----------

  /** Empty lines in front of a request are skipped, and so they are when the connection is to be closed. */
  lemma {:induction false} RunEmptyLines(s: Session, t: string)
    requires !Halted(s.parser) && (s.parser.state == StartReq || s.parser.state == Dead)
    requires (forall i :: 0 <= i < |t| ==> t[i] == CR || t[i] == LF) && s.parser.nread + |t| <= HTTP_MAX_HEADER_SIZE
    ensures Run(s, t) == Session(s.parser.(nread := s.parser.nread + |t|), s.log, s.consumed + |t|)
    decreases |t|
  {
    if t != "" {
      LogNone(s.log);
      RunEmptyLines(Advance(s, t[0]), t[1..]);
    }
  }

  /** So are further blanks between the method, the target and the version. */
  lemma {:induction false} RunMoreBlanks(s: Session, t: string)
    requires !Halted(s.parser) && (s.parser.state == ReqSpacesBeforeUrl || s.parser.state == ReqHttpStart)
    requires (forall i :: 0 <= i < |t| ==> t[i] == ' ') && s.parser.nread + |t| <= HTTP_MAX_HEADER_SIZE
    ensures Run(s, t) == Session(s.parser.(nread := s.parser.nread + |t|), s.log, s.consumed + |t|)
    decreases |t|
  {
    if t != "" {
      hide Step;
      LogNone(s.log);
      BlankStep(s.parser);
      RunMoreBlanks(Advance(s, ' '), t[1..]);
    }
  }

  lemma BlankStep(p: Parser)
    requires !Halted(p) && (p.state == ReqSpacesBeforeUrl || p.state == ReqHttpStart) && p.nread < HTTP_MAX_HEADER_SIZE
    ensures Step(p, ' ') == Result(p.(nread := p.nread + 1), [])
  {
    var q := Counted(p);
    assert Step(p, ' ') == if p.state == ReqHttpStart then ExecVersion(q, ' ') else ExecUrl(q, ' ');
  }

  /** The protocol must be called HTTP. */
  lemma OtherProtocol(s: Session, ch: char)
    requires !Halted(s.parser) && s.parser.state == ReqHttpStart && ch != 'H' && ch != ' ' && s.parser.nread < HTTP_MAX_HEADER_SIZE
    ensures Advance(s, ch).parser.errno == InvalidConstant
  {
    hide Log, LogAll;
    assert Step(s.parser, ch) == ExecVersion(Counted(s.parser), ch);
  }

  /** Anything else behind the last request is refused. */
  lemma NothingMore(s: Session, ch: char, more: string)
    requires !Halted(s.parser) && s.parser.state == Dead && ch != CR && ch != LF && s.parser.nread < HTTP_MAX_HEADER_SIZE
    ensures var q := Run(s, [ch] + more); q.parser.errno == ClosedConnection && q.log == s.log && q.consumed == s.consumed
  {
    LogNone(s.log);
    RunOne(s, ch, more);
    RunHalted(Advance(s, ch), more);
  }

  /** The byte that must come next, where only one may. */
  function OnlyByte(s: State): Option<char> {
    match s
    case ReqHttpH => Some('T') case ReqHttpHT => Some('T') case ReqHttpHTT => Some('P') case ReqHttpHTTP => Some('/')
    case ReqLineAlmostDone => Some(LF) case HeaderAlmostDone => Some(LF) case HeadersAlmostDone => Some(LF)
    case ChunkSizeAlmostDone => Some(LF) case ChunkDataAlmostDone => Some(CR) case ChunkDataDone => Some(LF)
    case _ => None
  }

  /** Any other byte there is an error. */
  lemma OnlyByteAccepted(p: Parser, ch: char)
    requires !Halted(p) && p.nread < HTTP_MAX_HEADER_SIZE && OnlyByte(p.state) != None && OnlyByte(p.state) != Some(ch)
    ensures Step(p, ch).parser.errno != OK && Step(p, ch).events == []
  {
    var q := Counted(p);
    if p.state == HeaderAlmostDone {
      assert Exec(q, ch) == ExecAlmostDone(q, ch);
    } else if p.state == HeadersAlmostDone {
      assert Exec(q, ch) == ExecHeadersAlmostDone(q, ch);
    } else if p.state == ChunkSizeAlmostDone {
      assert Exec(q, ch) == ExecChunkSizeAlmostDone(q, ch);
    } else if p.state == ChunkDataAlmostDone {
      assert Exec(q, ch) == ExecChunkDataAlmostDone(q, ch);
    } else if p.state == ChunkDataDone {
      assert Exec(q, ch) == ExecChunkDataDone(q, ch);
    } else {
      assert Exec(q, ch) == ExecVersion(q, ch);
    }
  }

  predicate AtLeast11(major: nat, minor: nat) { major > 1 || (major == 1 && minor >= 1) }

  /** Without a Connection header, the connection stays open if and only if the version is 1.1 or later and does not
      end in 0. */
  lemma PersistsByDefault(r: Request)
    requires Acceptable(r) && !Mentions(AllHeaders(r) + Trailer(r.content), HConnection)
    ensures var v := VersionOf(r.version).value; Persists(r) <==> AtLeast11(v.0, v.1) && v.1 != 0
  {
    hide VersionOf, KindOf, IsWordValue;
  }

  /** So a request of version 2.0 is treated as one of version 1.0. */
  lemma VersionTwoCloses(r: Request)
    requires Acceptable(r) && !Mentions(AllHeaders(r) + Trailer(r.content), HConnection) && r.version == "2.0"
    ensures VersionOf(r.version) == Some((2, 0)) && AtLeast11(2, 0) && StateBehind(r) == Dead
  {
    PersistsByDefault(r);
    assert FirstDot("2.0") == 1;
    assert "2.0"[..1] == "2" && "2.0"[2..] == "0";
    ValueOfDigit('2');
    ValueOfDigit('0');
  }

  /** The same for the code: however the bytes of the requests are cut, the joined callbacks are their events. */
  method ServeConnection(rs: seq<Request>, pieces: seq<string>) returns (parser: Server.Parser, total: nat)
    requires Pipelined(rs) && HeadsFit(0, rs)
    requires (forall i :: 0 <= i < |pieces| ==> pieces[i] != "") && Concat(pieces) == Texts(rs)
    ensures parser.errno == OK && parser.state == (if rs == [] then StartReq else StateBehind(rs[|rs| - 1]))
    ensures parser.upgrade == (rs != [] && Upgrades(rs[|rs| - 1]))
    ensures parser.Joined() == AllEvents(rs) && total == |Texts(rs)|
  {
    hide Step, Run, LogAll, Texts, AllEvents, Pipelined, HeadsFit, Concat, StateBehind, Upgrades;
    parser := new Server.Parser();
    FreshLog(parser);
    RunRequests(START, rs);
    total := parser.ExecutePieces(pieces);
    assert [] + AllEvents(rs) == AllEvents(rs);
  }

  lemma FreshLog(parser: Server.Parser)
    requires parser.calls == []
    ensures parser.Joined() == []
  {
  }
}
