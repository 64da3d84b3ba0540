/** No assertion of the request parser can fail, whatever the bytes. */
module HttpSafety {
  import opened Common
  import opened HttpMachine

  /** Positions in the literal that is being matched stay inside it. */
  predicate Matching(p: Parser, lit: string, least: nat) {
    least <= p.index && p.index < |lit| - 1
  }

  predicate FieldGood(p: Parser) {
    match p.headerState
    case HGeneral => true
    case HC => p.index == 0
    case HCO => p.index == 1
    case HCON => p.index == 2
    case HMatchingConnection => Matching(p, CONNECTION, 3)
    case HMatchingProxyConnection => Matching(p, PROXY_CONNECTION, 0)
    case HMatchingContentLength => Matching(p, CONTENT_LENGTH, 3)
    case HMatchingTransferEncoding => Matching(p, TRANSFER_ENCODING, 0)
    case HMatchingUpgrade => Matching(p, UPGRADE, 0)
    case HConnection => true
    case HContentLength => true
    case HTransferEncoding => true
    case HUpgrade => true
    case _ => false
  }

  predicate ValueGood(p: Parser) {
    match p.headerState
    case HGeneral => true
    case HContentLength => p.contentLength < ULLONG_MAX
    case HMatchingChunked => Matching(p, CHUNKED, 0)
    case HMatchingKeepAlive => Matching(p, KEEP_ALIVE, 0)
    case HMatchingClose => Matching(p, CLOSE, 0)
    case HChunked => true
    case HKeepAlive => true
    case HClose => true
    case _ => false
  }

  /** What each state says about the other fields, between bytes. */
  predicate StateGood(p: Parser) {
    match p.state
    case ReqMethod => 1 <= p.index <= |MethodLiteral(p.method_)|
    case HeaderField => FieldGood(p)
    case HeaderValue => ValueGood(p)
    case ChunkSizeStart => p.flags.chunked && p.nread == 0
    case ChunkSize => p.flags.chunked && p.contentLength < ULLONG_MAX
    case ChunkParameters => p.flags.chunked && p.contentLength < ULLONG_MAX
    case ChunkSizeAlmostDone => p.flags.chunked && p.contentLength < ULLONG_MAX
    case ChunkData => p.flags.chunked && 0 < p.contentLength < ULLONG_MAX
    case ChunkDataAlmostDone => p.flags.chunked && p.contentLength == 0
    case ChunkDataDone => p.flags.chunked
    case BodyIdentity => 0 < p.contentLength < ULLONG_MAX
    case HeadersDone => false
    case MessageDone => false
    case _ => true
  }

  predicate Good(p: Parser) {
    && p.nread <= HTTP_MAX_HEADER_SIZE
    && p.contentLength <= ULLONG_MAX
    && p.index <= 17
    && p.major <= 999 && p.minor <= 999
    && StateGood(p)
  }

  predicate Safe(p: Parser) {
    p.errno != AssertionFailed && (p.errno == OK ==> Good(p))
  }

  lemma StartSafe(p: Parser, ch: char)
    requires p.errno == OK && Good(p) && p.state == StartReq
    ensures Safe(ExecStart(p, ch).parser)
  {
  }

  lemma MethodSafe(p: Parser, ch: char)
    requires p.errno == OK && Good(p) && p.state == ReqMethod
    ensures Safe(ExecMethod(p, ch).parser)
  {
    var other := OtherMethod(p.method_, p.index, ch);
    if other.Some? {
      assert p.index + 1 <= |MethodLiteral(other.value)|;
    }
    assert |MethodLiteral(p.method_)| <= 11;
  }

  lemma UrlStates(s: State, ch: char)
    ensures var t := ParseUrlChar(s, ch); t == Dead || IsUrlState(t)
  {
  }

  lemma UrlByteSafe(p: Parser, from: State, ch: char)
    requires p.errno == OK && Good(p)
    ensures Safe(UrlByte(p, from, ch).parser)
  {
    UrlStates(from, ch);
  }

  lemma UrlSafe(p: Parser, ch: char)
    requires p.errno == OK && Good(p) && (p.state == ReqSpacesBeforeUrl || IsUrlState(p.state))
    ensures Safe(ExecUrl(p, ch).parser)
  {
    UrlByteSafe(p, p.state, ch);
    UrlByteSafe(p, ReqServerStart, ch);
  }

  predicate IsVersionState(s: State) {
    match s
    case ReqHttpStart => true case ReqHttpH => true case ReqHttpHT => true case ReqHttpHTT => true
    case ReqHttpHTTP => true case ReqFirstHttpMajor => true case ReqHttpMajor => true
    case ReqFirstHttpMinor => true case ReqHttpMinor => true case ReqLineAlmostDone => true
    case _ => false
  }

  lemma VersionSafe(p: Parser, ch: char)
    requires p.errno == OK && Good(p) && IsVersionState(p.state)
    ensures Safe(ExecVersion(p, ch).parser)
  {
    hide ExecVersion;
    VersionGoesOn(p, ch);
  }

  /** The version states touch nothing but themselves and the version, which stays small. */
  lemma VersionGoesOn(p: Parser, ch: char)
    requires p.errno == OK && IsVersionState(p.state) && p.major <= 999 && p.minor <= 999
    ensures var q := ExecVersion(p, ch).parser;
      && q == p.(state := q.state, major := q.major, minor := q.minor, errno := q.errno)
      && (q.errno == OK ==> (IsVersionState(q.state) || q.state == HeaderFieldStart) && q.major <= 999 && q.minor <= 999)
      && q.errno != AssertionFailed
  {
  }

  /** A further byte keeps the position inside the literal, or ends the match. */
  lemma MatchNextGood(p: Parser, lit: string, least: nat, c: char, done: HeaderState)
    requires Matching(p, lit, least)
    ensures var q := MatchNext(p, lit, c, done);
      && q == p.(index := p.index + 1, headerState := q.headerState)
      && (q.headerState == HGeneral || q.headerState == done || (q.headerState == p.headerState && Matching(q, lit, least)))
  {
  }

  lemma FieldByteGood(p: Parser, ch: char)
    requires FieldGood(p) && p.index <= 17 && Token(ch) != '\0'
    ensures var q := FieldByte(p, Token(ch), ch);
      q == p.(index := q.index, headerState := q.headerState) && q.index <= 17 && FieldGood(q)
  {
  }

  lemma FieldSafe(p: Parser, ch: char)
    requires p.errno == OK && Good(p) && p.state == HeaderField
    ensures Safe(ExecField(p, ch).parser)
  {
    hide FieldByte, Token;
    if Token(ch) != '\0' {
      FieldByteGood(p, ch);
    }
  }

  lemma ValueStartSafe(p: Parser, ch: char)
    requires p.errno == OK && Good(p) && p.state == HeaderValueStart
    ensures Safe(ExecValueStart(p, ch).parser)
  {
  }

  lemma AlmostDoneSafe(p: Parser, ch: char)
    requires p.errno == OK && Good(p.(state := HeaderAlmostDone))
    ensures Safe(ExecAlmostDone(p, ch).parser)
  {
  }

  lemma ValueByteSafe(p: Parser, ch: char)
    requires p.errno == OK && Good(p) && p.state == HeaderValue
    ensures Safe(ValueByte(p, ch))
  {
    hide Accumulate, MatchNext;
    match p.headerState {
      case HMatchingChunked => MatchNextGood(p, CHUNKED, 0, Lower(ch), HChunked);
      case HMatchingKeepAlive => MatchNextGood(p, KEEP_ALIVE, 0, Lower(ch), HKeepAlive);
      case HMatchingClose => MatchNextGood(p, CLOSE, 0, Lower(ch), HClose);
      case HContentLength =>
      case _ =>
    }
  }

  lemma ValueSafe(p: Parser, ch: char)
    requires p.errno == OK && Good(p) && p.state == HeaderValue
    ensures Safe(ExecValue(p, ch).parser)
  {
    if ch == LF {
      AlmostDoneSafe(p.(state := HeaderAlmostDone), ch);
    } else if ch != CR {
      ValueByteSafe(p, ch);
    }
  }

  lemma HeadersDoneSafe(p: Parser, ch: char)
    requires p.errno == OK && Good(p.(state := HeadersAlmostDone)) && p.state == HeadersDone
    ensures Safe(ExecHeadersDone(p, ch).parser)
  {
  }

  lemma HeadersAlmostDoneSafe(p: Parser, ch: char)
    requires p.errno == OK && Good(p) && p.state == HeadersAlmostDone
    ensures Safe(ExecHeadersAlmostDone(p, ch).parser)
  {
    hide ExecHeadersDone, ShouldKeepAlive, ValueGood, FieldGood, MethodLiteral;
    HeadersDoneSafe(p.(state := HeadersDone, upgrade := p.flags.upgrade || p.method_ == CONNECT), ch);
  }

  lemma FieldStartSafe(p: Parser, ch: char)
    requires p.errno == OK && Good(p) && p.state == HeaderFieldStart
    ensures Safe(ExecFieldStart(p, ch).parser)
  {
    hide ExecHeadersAlmostDone, Token, ValueGood, MethodLiteral;
    HeadersAlmostDoneSafe(p.(state := HeadersAlmostDone), ch);
  }

  lemma BodySafe(p: Parser, ch: char)
    requires p.errno == OK && Good(p)
    ensures p.state == BodyIdentity ==> Safe(ExecBody(p, ch).parser)
    ensures p.state == ChunkData ==> Safe(ExecChunkData(p, ch).parser)
  {
    hide ShouldKeepAlive, ValueGood, FieldGood, MethodLiteral;
  }

  lemma ChunkEndSafe(p: Parser, ch: char)
    requires p.errno == OK && Good(p)
    ensures p.state == ChunkDataAlmostDone ==> Safe(ExecChunkDataAlmostDone(p, ch).parser)
    ensures p.state == ChunkDataDone ==> Safe(ExecChunkDataDone(p, ch).parser)
  {
    hide ValueGood, FieldGood, MethodLiteral;
  }

  /** The chunk header states, entered after the byte has been counted. */
  lemma ChunkSizeSafe(p: Parser, ch: char)
    requires p.errno == OK && Good(p) && p.state == ChunkSize
    ensures Safe(ExecChunkSize(p, ch).parser)
  {
  }

  lemma ChunkOtherSafe(p: Parser, ch: char)
    requires p.errno == OK && Good(p) && p.nread < HTTP_MAX_HEADER_SIZE
    ensures var q := p.(nread := p.nread + 1);
      && (p.state == ChunkSizeStart ==> Safe(ExecChunkSizeStart(q, ch).parser))
      && (p.state == ChunkParameters ==> Safe(ExecChunkParameters(q, ch).parser))
      && (p.state == ChunkSizeAlmostDone ==> Safe(ExecChunkSizeAlmostDone(q, ch).parser))
  {
    hide ValueGood, FieldGood, MethodLiteral, Unhex;
  }

  lemma ChunkHeaderSafe(p: Parser, ch: char)
    requires p.errno == OK && Good(p) && p.nread < HTTP_MAX_HEADER_SIZE && IsChunkHeaderState(p.state)
    ensures Safe(Exec(p.(nread := p.nread + 1), ch).parser)
  {
    if p.state == ChunkSize {
      ChunkSizeSafe(p.(nread := p.nread + 1), ch);
    } else {
      ChunkOtherSafe(p, ch);
    }
  }

  predicate IsHeaderState(s: State) {
    match s
    case HeaderFieldStart => true case HeaderField => true case HeaderValueStart => true case HeaderValue => true
    case HeaderValueLws => true case HeaderAlmostDone => true case HeadersAlmostDone => true
    case _ => false
  }

  lemma HeaderSafe(p: Parser, ch: char)
    requires p.errno == OK && Good(p) && IsHeaderState(p.state)
    ensures Safe(Exec(p, ch).parser)
  {
    match p.state {
      case HeaderFieldStart => FieldStartSafe(p, ch);
      case HeaderField => FieldSafe(p, ch);
      case HeaderValueStart => ValueStartSafe(p, ch);
      case HeaderValue => ValueSafe(p, ch);
      case HeaderValueLws => FieldStartSafe(p.(state := HeaderFieldStart), ch);
      case HeaderAlmostDone => AlmostDoneSafe(p, ch);
      case HeadersAlmostDone => HeadersAlmostDoneSafe(p, ch);
    }
  }

  predicate IsRequestLineState(s: State) {
    s == Dead || s == StartReq || s == ReqMethod || s == ReqSpacesBeforeUrl || IsUrlState(s) || IsVersionState(s)
  }

  lemma RequestLineSafe(p: Parser, ch: char)
    requires p.errno == OK && Good(p) && IsRequestLineState(p.state)
    ensures Safe(Exec(p, ch).parser)
  {
    if p.state == StartReq {
      StartSafe(p, ch);
    } else if p.state == ReqMethod {
      MethodSafe(p, ch);
    } else if IsVersionState(p.state) {
      VersionSafe(p, ch);
    } else if p.state != Dead {
      UrlSafe(p, ch);
    }
  }

  predicate IsChunkHeaderState(s: State) {
    s == ChunkSizeStart || s == ChunkSize || s == ChunkParameters || s == ChunkSizeAlmostDone
  }

  /** The part of the switch for each group of states. */
  lemma SwitchRequestLine(p: Parser, ch: char)
    requires IsRequestLineState(p.state)
    ensures Exec(p, ch) ==
      if p.state == Dead then ExecDead(p, ch)
      else if p.state == StartReq then ExecStart(p, ch)
      else if p.state == ReqMethod then ExecMethod(p, ch)
      else if IsVersionState(p.state) then ExecVersion(p, ch)
      else ExecUrl(p, ch)
  {
    hide ExecStart, ExecMethod, ExecUrl, ExecVersion;
  }

  lemma SwitchHeader(p: Parser, ch: char)
    requires IsHeaderState(p.state)
    ensures Exec(p, ch) ==
      if p.state == HeaderFieldStart then ExecFieldStart(p, ch)
      else if p.state == HeaderField then ExecField(p, ch)
      else if p.state == HeaderValueStart then ExecValueStart(p, ch)
      else if p.state == HeaderValue then ExecValue(p, ch)
      else if p.state == HeaderValueLws then ExecLws(p, ch)
      else if p.state == HeaderAlmostDone then ExecAlmostDone(p, ch)
      else ExecHeadersAlmostDone(p, ch)
  {
    hide ExecFieldStart, ExecField, ExecValueStart, ExecValue, ExecLws, ExecAlmostDone, ExecHeadersAlmostDone;
  }

  lemma SwitchChunk(p: Parser, ch: char)
    requires IsChunkHeaderState(p.state) || p.state == ChunkDataAlmostDone || p.state == ChunkDataDone
    ensures Exec(p, ch) ==
      if p.state == ChunkSizeStart then ExecChunkSizeStart(p, ch)
      else if p.state == ChunkSize then ExecChunkSize(p, ch)
      else if p.state == ChunkParameters then ExecChunkParameters(p, ch)
      else if p.state == ChunkSizeAlmostDone then ExecChunkSizeAlmostDone(p, ch)
      else if p.state == ChunkDataAlmostDone then ExecChunkDataAlmostDone(p, ch)
      else ExecChunkDataDone(p, ch)
  {
    hide ExecChunkSizeStart, ExecChunkSize, ExecChunkParameters, ExecChunkSizeAlmostDone;
  }

  lemma StepSafeInHeader(p: Parser, ch: char)
    requires p.errno == OK && Good(p) && IsHeaderState(p.state) && p.nread < HTTP_MAX_HEADER_SIZE
    ensures Safe(Step(p, ch).parser)
  {
    assert Counted(p) == p.(nread := p.nread + 1);
    HeaderSafe(Counted(p), ch);
  }

  lemma StepSafeInRequestLine(p: Parser, ch: char)
    requires p.errno == OK && Good(p) && IsRequestLineState(p.state) && p.nread < HTTP_MAX_HEADER_SIZE
    ensures Safe(Step(p, ch).parser)
  {
    assert Counted(p) == p.(nread := p.nread + 1);
    RequestLineSafe(Counted(p), ch);
  }

  lemma StepSafeInBody(p: Parser, ch: char)
    requires p.errno == OK && Good(p) && !ParsingHeader(p.state)
    ensures Safe(Step(p, ch).parser)
  {
    BodySafe(p, ch);
    ChunkEndSafe(p, ch);
  }

  lemma StepSafeInChunkHeader(p: Parser, ch: char)
    requires p.errno == OK && Good(p) && IsChunkHeaderState(p.state) && p.nread < HTTP_MAX_HEADER_SIZE
    ensures Safe(Step(p, ch).parser)
  {
    assert Counted(p) == p.(nread := p.nread + 1);
    ChunkHeaderSafe(p, ch);
  }

  /** One byte keeps the invariant and trips no assertion. */
  lemma StepSafe(p: Parser, ch: char)
    requires p.errno == OK && Good(p)
    ensures Safe(Step(p, ch).parser)
  {
    if !ParsingHeader(p.state) {
      StepSafeInBody(p, ch);
    } else if p.nread < HTTP_MAX_HEADER_SIZE {
      StateGroups(p.state);
      if IsHeaderState(p.state) {
        StepSafeInHeader(p, ch);
      } else if IsChunkHeaderState(p.state) {
        StepSafeInChunkHeader(p, ch);
      } else if p.state != HeadersDone {
        StepSafeInRequestLine(p, ch);
      }
    }
  }

  lemma StateGroups(s: State)
    ensures IsHeaderState(s) || IsRequestLineState(s) || IsChunkHeaderState(s) || s == HeadersDone || !ParsingHeader(s)
  {
  }

  /** From a fresh parser, over every input: no assertion fails and the invariant holds after every byte. */
  lemma {:induction false} RunSafe(s: Session, data: string)
    requires Safe(s.parser)
    ensures Safe(Run(s, data).parser)
    decreases |data|
  {
    if data != "" && !Halted(s.parser) {
      StepSafe(s.parser, data[0]);
      RunSafe(Advance(s, data[0]), data[1..]);
    }
  }

  lemma NeverAborts(data: string)
    ensures Safe(Run(START, data).parser)
  {
    RunSafe(START, data);
  }
}
