/** The request half of base/http_parser.cc, in strict mode, one byte at a time.
    `Step` is the reference that the buffered parser is proved against. */
module HttpMachine {
  import opened Common

  datatype State =
    | Dead | StartReq
    | ReqMethod | ReqSpacesBeforeUrl | ReqSchema | ReqSchemaSlash | ReqSchemaSlashSlash
    | ReqServerStart | ReqServer | ReqServerWithAt | ReqPath
    | ReqQueryStringStart | ReqQueryString | ReqFragmentStart | ReqFragment
    | ReqHttpStart | ReqHttpH | ReqHttpHT | ReqHttpHTT | ReqHttpHTTP
    | ReqFirstHttpMajor | ReqHttpMajor | ReqFirstHttpMinor | ReqHttpMinor | ReqLineAlmostDone
    | HeaderFieldStart | HeaderField | HeaderValueStart | HeaderValue | HeaderValueLws | HeaderAlmostDone
    | ChunkSizeStart | ChunkSize | ChunkParameters | ChunkSizeAlmostDone
    | HeadersAlmostDone | HeadersDone
    | ChunkData | ChunkDataAlmostDone | ChunkDataDone | BodyIdentity | MessageDone

  datatype HeaderState =
    | HGeneral | HC | HCO | HCON
    | HMatchingConnection | HMatchingProxyConnection | HMatchingContentLength
    | HMatchingTransferEncoding | HMatchingUpgrade
    | HConnection | HContentLength | HTransferEncoding | HUpgrade
    | HMatchingChunked | HMatchingKeepAlive | HMatchingClose
    | HChunked | HKeepAlive | HClose

  datatype Method =
    | DELETE | GET | HEAD | POST | PUT | CONNECT | OPTIONS | TRACE | COPY | LOCK | MKCOL | MOVE
    | PROPFIND | PROPPATCH | SEARCH | UNLOCK | REPORT | MKACTIVITY | CHECKOUT | MERGE | MSEARCH
    | NOTIFY | SUBSCRIBE | UNSUBSCRIBE | PATCH | PURGE

  /** Error codes; `AssertionFailed` stands for an abort in one of the parser's own assertions. */
  datatype Errno =
    | OK | InvalidEofState | HeaderOverflow | ClosedConnection | InvalidVersion | InvalidMethod | InvalidUrl
    | LfExpected | InvalidHeaderToken | InvalidContentLength | InvalidChunkSize | InvalidConstant | Strict
    | AssertionFailed

  datatype Flags = Flags(chunked: bool, keepAlive: bool, close: bool, trailing: bool, upgrade: bool)

  const NO_FLAGS := Flags(false, false, false, false, false)

  datatype Parser = Parser(
    state: State, headerState: HeaderState, index: nat, nread: nat, contentLength: nat,
    major: nat, minor: nat, method_: Method, flags: Flags, upgrade: bool, errno: Errno)

  /** http_parser_init for requests. */
  const INIT := Parser(StartReq, HGeneral, 0, 0, 0, 0, 0, DELETE, NO_FLAGS, false, OK)

  const HTTP_MAX_HEADER_SIZE := 80 * 1024

  datatype Kind = Url | Field | FieldValue | Body

  datatype Event =
    | MessageBegin
    | HeadersComplete
    | MessageComplete
    | Data(kind: Kind, bytes: string)

  datatype Result = Result(parser: Parser, events: seq<Event>)

  // ---------- character classes ----------

  predicate IsAlpha(ch: char) { 'a' <= ch <= 'z' || 'A' <= ch <= 'Z' }

  predicate IsNum(ch: char) { '0' <= ch <= '9' }

  /** `ch | 0x20` on a byte. */
  function Lower(ch: char): char {
    if ch as int < 256 && (ch as int / 32) % 2 == 0 then (ch as int + 32) as char else ch
  }

  function ToLowerAscii(ch: char): char {
    if 'A' <= ch <= 'Z' then (ch as int + 32) as char else ch
  }

  /** The token table: the lower-cased character, or NUL when the byte cannot be in a token. */
  function Token(ch: char): char {
    if IsAlpha(ch) || IsNum(ch) || ch in "!#$%&'*+-.^_`|~" then ToLowerAscii(ch) else '\0'
  }

  predicate IsUrlChar(ch: char) { '!' <= ch <= '~' && ch != '#' && ch != '?' }

  predicate IsUserinfoChar(ch: char) {
    IsAlpha(ch) || IsNum(ch) || ch in "-_.!~*'()" || ch in "%;:&=+$,"
  }

  predicate IsHexDigit(ch: char) { IsNum(ch) || 'a' <= ch <= 'f' || 'A' <= ch <= 'F' }

  /** The table lists only its first half, so bytes from 0x80 up read as zero. */
  function Unhex(ch: char): (v: int)
    ensures -1 <= v < 16
    ensures IsHexDigit(ch) ==> v >= 0
  {
    if IsNum(ch) then ch as int - '0' as int
    else if 'a' <= ch <= 'f' then ch as int - 'a' as int + 10
    else if 'A' <= ch <= 'F' then ch as int - 'A' as int + 10
    else if ch as int >= 128 then 0
    else -1
  }

  const CR := '\r'
  const LF := '\n'

  predicate NoLineBreak(s: string) { forall i :: 0 <= i < |s| ==> s[i] != CR && s[i] != LF }

  // ---------- helpers of the switch ----------

  /** States up to s_headers_done in the order of the enumeration: their bytes count as header bytes. */
  predicate ParsingHeader(s: State) {
    s != ChunkData && s != ChunkDataAlmostDone && s != ChunkDataDone && s != BodyIdentity && s != MessageDone
  }

  predicate IsUrlState(s: State) {
    match s
    case ReqPath => true case ReqSchema => true case ReqSchemaSlash => true case ReqSchemaSlashSlash => true
    case ReqServerStart => true case ReqServer => true case ReqServerWithAt => true
    case ReqQueryStringStart => true case ReqQueryString => true
    case ReqFragmentStart => true case ReqFragment => true
    case _ => false
  }

  predicate ShouldKeepAlive(p: Parser) {
    if p.major > 0 && p.minor > 0 then !p.flags.close else p.flags.keepAlive
  }

  function NewMessage(p: Parser): State {
    if ShouldKeepAlive(p) then StartReq else Dead
  }

  function Fail(p: Parser, e: Errno): Result {
    Result(p.(errno := e), [])
  }

  function ParseUrlChar(s: State, ch: char): State {
    if ch in " \r\n\t" || ch as int == 12 then Dead
    else
      match s
      case ReqSpacesBeforeUrl =>
        if ch == '/' || ch == '*' then ReqPath else if IsAlpha(ch) then ReqSchema else Dead
      case ReqSchema => if IsAlpha(ch) then s else if ch == ':' then ReqSchemaSlash else Dead
      case ReqSchemaSlash => if ch == '/' then ReqSchemaSlashSlash else Dead
      case ReqSchemaSlashSlash => if ch == '/' then ReqServerStart else Dead
      case ReqServerWithAt => if ch == '@' then Dead else ParseServerChar(ch)
      case ReqServerStart => ParseServerChar(ch)
      case ReqServer => ParseServerChar(ch)
      case ReqPath =>
        if IsUrlChar(ch) then s else if ch == '?' then ReqQueryStringStart else if ch == '#' then ReqFragmentStart else Dead
      case ReqQueryStringStart => ParseQueryChar(ch)
      case ReqQueryString => ParseQueryChar(ch)
      case ReqFragmentStart =>
        if IsUrlChar(ch) || ch == '?' then ReqFragment else if ch == '#' then s else Dead
      case ReqFragment => if IsUrlChar(ch) || ch == '?' || ch == '#' then s else Dead
      case _ => Dead
  }

  function ParseServerChar(ch: char): State {
    if ch == '/' then ReqPath
    else if ch == '?' then ReqQueryStringStart
    else if ch == '@' then ReqServerWithAt
    else if IsUserinfoChar(ch) || ch == '[' || ch == ']' then ReqServer
    else Dead
  }

  function ParseQueryChar(ch: char): State {
    if IsUrlChar(ch) || ch == '?' then ReqQueryString else if ch == '#' then ReqFragmentStart else Dead
  }

  /** The literal of a method; M-SEARCH is spelled with spaces in the table. */
  function MethodLiteral(m: Method): string {
    match m
    case DELETE => "DELETE" case GET => "GET" case HEAD => "HEAD" case POST => "POST" case PUT => "PUT"
    case CONNECT => "CONNECT" case OPTIONS => "OPTIONS" case TRACE => "TRACE" case COPY => "COPY"
    case LOCK => "LOCK" case MKCOL => "MKCOL" case MOVE => "MOVE" case PROPFIND => "PROPFIND"
    case PROPPATCH => "PROPPATCH" case SEARCH => "SEARCH" case UNLOCK => "UNLOCK" case REPORT => "REPORT"
    case MKACTIVITY => "MKACTIVITY" case CHECKOUT => "CHECKOUT" case MERGE => "MERGE"
    case MSEARCH => "M - SEARCH" case NOTIFY => "NOTIFY" case SUBSCRIBE => "SUBSCRIBE"
    case UNSUBSCRIBE => "UNSUBSCRIBE" case PATCH => "PATCH" case PURGE => "PURGE"
  }

  /** A literal as C stores it, with its terminating NUL. */
  function CharAt(lit: string, i: nat): char {
    if i < |lit| then lit[i] else '\0'
  }

  function FirstMethod(ch: char): Option<Method> {
    match ch
    case 'C' => Some(CONNECT) case 'D' => Some(DELETE) case 'G' => Some(GET) case 'H' => Some(HEAD)
    case 'L' => Some(LOCK) case 'M' => Some(MKCOL) case 'N' => Some(NOTIFY) case 'O' => Some(OPTIONS)
    case 'P' => Some(POST) case 'R' => Some(REPORT) case 'S' => Some(SUBSCRIBE) case 'T' => Some(TRACE)
    case 'U' => Some(UNLOCK)
    case _ => None
  }

  /** The method to switch to when the byte at `index` differs from the literal, if there is one. */
  function OtherMethod(m: Method, index: nat, ch: char): Option<Method> {
    match m
    case CONNECT =>
      if index == 1 && ch == 'H' then Some(CHECKOUT) else if index == 2 && ch == 'P' then Some(COPY) else None
    case MKCOL =>
      if index == 1 && ch == 'O' then Some(MOVE)
      else if index == 1 && ch == 'E' then Some(MERGE)
      else if index == 1 && ch == '-' then Some(MSEARCH)
      else if index == 2 && ch == 'A' then Some(MKACTIVITY)
      else None
    case SUBSCRIBE => if index == 1 && ch == 'E' then Some(SEARCH) else None
    case POST =>
      if index != 1 then None
      else if ch == 'R' then Some(PROPFIND)
      else if ch == 'U' then Some(PUT)
      else if ch == 'A' then Some(PATCH)
      else None
    case PUT => if index == 2 && ch == 'R' then Some(PURGE) else None
    case UNLOCK => if index == 2 && ch == 'S' then Some(UNSUBSCRIBE) else None
    case PROPFIND => if index == 4 && ch == 'P' then Some(PROPPATCH) else None
    case _ => None
  }

  // ---------- the switch, state group by state group ----------

  function ExecStart(p: Parser, ch: char): Result {
    if ch == CR || ch == LF then Result(p, [])
    else
      var q := p.(flags := NO_FLAGS, contentLength := ULLONG_MAX);
      if !IsAlpha(ch) then Fail(q, InvalidMethod)
      else if FirstMethod(ch).None? then Fail(q.(method_ := DELETE, index := 1), InvalidMethod)
      else Result(q.(method_ := FirstMethod(ch).value, index := 1, state := ReqMethod), [MessageBegin])
  }

  function ExecMethod(p: Parser, ch: char): Result {
    var expected := CharAt(MethodLiteral(p.method_), p.index);
    if ch == '\0' then Fail(p, InvalidMethod)
    else if ch == ' ' && expected == '\0' then Result(p.(state := ReqSpacesBeforeUrl, index := p.index + 1), [])
    else if ch == expected then Result(p.(index := p.index + 1), [])
    else
      match OtherMethod(p.method_, p.index, ch)
      case None => Fail(p, InvalidMethod)
      case Some(m) => Result(p.(method_ := m, index := p.index + 1), [])
  }

  function UrlByte(p: Parser, from: State, ch: char): Result {
    var s := ParseUrlChar(from, ch);
    if s == Dead then Fail(p.(state := Dead), InvalidUrl)
    else Result(p.(state := s), [Data(Url, [ch])])
  }

  function ExecUrl(p: Parser, ch: char): Result {
    if p.state == ReqSpacesBeforeUrl then
      if ch == ' ' then Result(p, [])
      else UrlByte(p, if p.method_ == CONNECT then ReqServerStart else p.state, ch)
    else if p.state == ReqSchema || p.state == ReqSchemaSlash || p.state == ReqSchemaSlashSlash || p.state == ReqServerStart then
      if ch == ' ' || ch == CR || ch == LF then Fail(p, InvalidUrl) else UrlByte(p, p.state, ch)
    else if ch == ' ' then Result(p.(state := ReqHttpStart), [Data(Url, "")])
    else if ch == CR || ch == LF then
      Result(p.(major := 0, minor := 9, state := if ch == CR then ReqLineAlmostDone else HeaderFieldStart), [Data(Url, "")])
    else UrlByte(p, p.state, ch)
  }

  function Expect(p: Parser, ch: char, want: char, next: State): Result {
    if ch != want then Fail(p, Strict) else Result(p.(state := next), [])
  }

  function ExecVersion(p: Parser, ch: char): Result {
    match p.state
    case ReqHttpStart =>
      if ch == 'H' then Result(p.(state := ReqHttpH), [])
      else if ch == ' ' then Result(p, [])
      else Fail(p, InvalidConstant)
    case ReqHttpH => Expect(p, ch, 'T', ReqHttpHT)
    case ReqHttpHT => Expect(p, ch, 'T', ReqHttpHTT)
    case ReqHttpHTT => Expect(p, ch, 'P', ReqHttpHTTP)
    case ReqHttpHTTP => Expect(p, ch, '/', ReqFirstHttpMajor)
    case ReqFirstHttpMajor =>
      if ch < '1' || ch > '9' then Fail(p, InvalidVersion)
      else Result(p.(major := Digit(ch), state := ReqHttpMajor), [])
    case ReqHttpMajor =>
      if ch == '.' then Result(p.(state := ReqFirstHttpMinor), [])
      else if !IsNum(ch) then Fail(p, InvalidVersion)
      else
        var q := p.(major := p.major * 10 + Digit(ch));
        if q.major > 999 then Fail(q, InvalidVersion) else Result(q, [])
    case ReqFirstHttpMinor =>
      if !IsNum(ch) then Fail(p, InvalidVersion)
      else Result(p.(minor := Digit(ch), state := ReqHttpMinor), [])
    case ReqHttpMinor =>
      if ch == CR then Result(p.(state := ReqLineAlmostDone), [])
      else if ch == LF then Result(p.(state := HeaderFieldStart), [])
      else if !IsNum(ch) then Fail(p, InvalidVersion)
      else
        var q := p.(minor := p.minor * 10 + Digit(ch));
        if q.minor > 999 then Fail(q, InvalidVersion) else Result(q, [])
    case _ =>
      if ch != LF then Fail(p, LfExpected) else Result(p.(state := HeaderFieldStart), [])
  }

  function Digit(ch: char): nat
    requires IsNum(ch)
  {
    ch as int - '0' as int
  }

  /** One more byte of a literal that is being matched. `index` is the last position matched so far. */
  function MatchNext(p: Parser, lit: string, c: char, done: HeaderState): Parser {
    var i := p.index + 1;
    var q := p.(index := i);
    if i > |lit| || c != CharAt(lit, i) then q.(headerState := HGeneral)
    else if i == |lit| - 1 then q.(headerState := done)
    else q
  }

  const CONNECTION := "connection"
  const PROXY_CONNECTION := "proxy-connection"
  const CONTENT_LENGTH := "content-length"
  const TRANSFER_ENCODING := "transfer-encoding"
  const UPGRADE := "upgrade"
  const CHUNKED := "chunked"
  const KEEP_ALIVE := "keep-alive"
  const CLOSE := "close"

  function FirstFieldByte(c: char): HeaderState {
    match c
    case 'c' => HC
    case 'p' => HMatchingProxyConnection
    case 't' => HMatchingTransferEncoding
    case 'u' => HMatchingUpgrade
    case _ => HGeneral
  }

  /** A further byte of a header name, lower-cased; `ch` is the byte itself. */
  function FieldByte(p: Parser, c: char, ch: char): Parser {
    match p.headerState
    case HGeneral => p
    case HC => p.(index := p.index + 1, headerState := if c == 'o' then HCO else HGeneral)
    case HCO => p.(index := p.index + 1, headerState := if c == 'n' then HCON else HGeneral)
    case HCON =>
      p.(index := p.index + 1,
         headerState := if c == 'n' then HMatchingConnection else if c == 't' then HMatchingContentLength else HGeneral)
    case HMatchingConnection => MatchNext(p, CONNECTION, c, HConnection)
    case HMatchingProxyConnection => MatchNext(p, PROXY_CONNECTION, c, HConnection)
    case HMatchingContentLength => MatchNext(p, CONTENT_LENGTH, c, HContentLength)
    case HMatchingTransferEncoding => MatchNext(p, TRANSFER_ENCODING, c, HTransferEncoding)
    case HMatchingUpgrade => MatchNext(p, UPGRADE, c, HUpgrade)
    case HConnection => if ch != ' ' then p.(headerState := HGeneral) else p
    case HContentLength => if ch != ' ' then p.(headerState := HGeneral) else p
    case HTransferEncoding => if ch != ' ' then p.(headerState := HGeneral) else p
    case HUpgrade => if ch != ' ' then p.(headerState := HGeneral) else p
    case _ => p.(errno := AssertionFailed)
  }

  function ExecField(p: Parser, ch: char): Result {
    var c := Token(ch);
    if c != '\0' then
      var q := FieldByte(p, c, ch);
      Result(q, if q.errno == OK then [Data(Field, [ch])] else [])
    else if ch == ':' then Result(p.(state := HeaderValueStart), [Data(Field, "")])
    else if ch == CR then Result(p.(state := HeaderAlmostDone), [Data(Field, "")])
    else if ch == LF then Result(p.(state := HeaderFieldStart), [Data(Field, "")])
    else Fail(p, InvalidHeaderToken)
  }

  function ExecValueStart(p: Parser, ch: char): Result {
    if ch == ' ' || ch == '\t' then Result(p, [])
    else
      var q := p.(state := HeaderValue, index := 0);
      if ch == CR then Result(q.(headerState := HGeneral, state := HeaderAlmostDone), [Data(FieldValue, "")])
      else if ch == LF then Result(q.(state := HeaderFieldStart), [Data(FieldValue, "")])
      else
        var ev := [Data(FieldValue, [ch])];
        match p.headerState
        case HUpgrade => Result(q.(flags := q.flags.(upgrade := true), headerState := HGeneral), ev)
        case HTransferEncoding => Result(q.(headerState := if Lower(ch) == 'c' then HMatchingChunked else HGeneral), ev)
        case HContentLength =>
          if !IsNum(ch) then Fail(q, InvalidContentLength) else Result(q.(contentLength := Digit(ch)), ev)
        case HConnection =>
          Result(q.(headerState := if Lower(ch) == 'k' then HMatchingKeepAlive
                                   else if Lower(ch) == 'c' then HMatchingClose else HGeneral), ev)
        case _ => Result(q.(headerState := HGeneral), ev)
  }

  /** `c` times `base` plus a digit, in 64 unsigned bits, with the parser's overflow test. */
  function Accumulate(c: nat, base: nat, digit: nat): (r: Option<nat>)
    ensures r.Some? ==> c <= r.value < ULLONG_MAX
  {
    var t := (c * base + digit) % (ULLONG_MAX + 1);
    if t < c || t == ULLONG_MAX then None else Some(t)
  }

  function ExecValue(p: Parser, ch: char): Result {
    if ch == CR then Result(p.(state := HeaderAlmostDone), [Data(FieldValue, "")])
    else if ch == LF then
      var r := ExecAlmostDone(p.(state := HeaderAlmostDone), ch);
      Result(r.parser, [Data(FieldValue, "")] + r.events)
    else
      var q := ValueByte(p, ch);
      Result(q, if q.errno == OK then [Data(FieldValue, [ch])] else [])
  }

  function ValueByte(p: Parser, ch: char): Parser {
    match p.headerState
    case HGeneral => p
    case HConnection => p.(errno := AssertionFailed)
    case HTransferEncoding => p.(errno := AssertionFailed)
    case HContentLength =>
      if ch == ' ' then p
      else if !IsNum(ch) then p.(errno := InvalidContentLength)
      else
        var t := Accumulate(p.contentLength, 10, Digit(ch));
        if t.None? then p.(errno := InvalidContentLength) else p.(contentLength := t.value)
    case HMatchingChunked => MatchNext(p, CHUNKED, Lower(ch), HChunked)
    case HMatchingKeepAlive => MatchNext(p, KEEP_ALIVE, Lower(ch), HKeepAlive)
    case HMatchingClose => MatchNext(p, CLOSE, Lower(ch), HClose)
    case HChunked => if ch != ' ' then p.(headerState := HGeneral) else p
    case HKeepAlive => if ch != ' ' then p.(headerState := HGeneral) else p
    case HClose => if ch != ' ' then p.(headerState := HGeneral) else p
    case _ => p.(headerState := HGeneral)
  }

  function ExecAlmostDone(p: Parser, ch: char): Result {
    if ch != LF then Fail(p, Strict)
    else
      var q := p.(state := HeaderValueLws);
      match p.headerState
      case HKeepAlive => Result(q.(flags := q.flags.(keepAlive := true)), [])
      case HClose => Result(q.(flags := q.flags.(close := true)), [])
      case HChunked => Result(q.(flags := q.flags.(chunked := true)), [])
      case _ => Result(q, [])
  }

  function ExecLws(p: Parser, ch: char): Result {
    if ch == ' ' || ch == '\t' then Result(p.(state := HeaderValueStart), [])
    else ExecFieldStart(p.(state := HeaderFieldStart), ch)
  }

  function ExecFieldStart(p: Parser, ch: char): Result {
    if ch == CR then Result(p.(state := HeadersAlmostDone), [])
    else if ch == LF then ExecHeadersAlmostDone(p.(state := HeadersAlmostDone), ch)
    else if Token(ch) == '\0' then Fail(p, InvalidHeaderToken)
    else Result(p.(index := 0, state := HeaderField, headerState := FirstFieldByte(Token(ch))), [Data(Field, [ch])])
  }

  function ExecHeadersAlmostDone(p: Parser, ch: char): Result {
    if ch != LF then Fail(p, Strict)
    else if p.flags.trailing then Result(p.(state := NewMessage(p)), [MessageComplete])
    else
      var q := p.(state := HeadersDone, upgrade := p.flags.upgrade || p.method_ == CONNECT);
      var r := ExecHeadersDone(q, ch);
      Result(r.parser, [HeadersComplete] + r.events)
  }

  function ExecHeadersDone(p: Parser, ch: char): Result {
    if ch != LF then Fail(p, Strict)
    else
      var q := p.(nread := 0);
      if q.upgrade then Result(q.(state := NewMessage(q)), [MessageComplete])
      else if q.flags.chunked then Result(q.(state := ChunkSizeStart), [])
      else if q.contentLength == 0 then Result(q.(state := NewMessage(q)), [MessageComplete])
      else if q.contentLength != ULLONG_MAX then Result(q.(state := BodyIdentity), [])
      else Result(q.(state := NewMessage(q)), [MessageComplete])
  }

  function ExecMessageDone(p: Parser): Result {
    Result(p.(state := NewMessage(p)), [MessageComplete])
  }

  /** One byte of a body whose length is known. */
  function ExecBody(p: Parser, ch: char): Result {
    if p.contentLength == 0 || p.contentLength == ULLONG_MAX then Fail(p, AssertionFailed)
    else
      var q := p.(contentLength := p.contentLength - 1);
      if q.contentLength == 0 then
        var r := ExecMessageDone(q.(state := MessageDone));
        Result(r.parser, [Data(Body, [ch])] + r.events)
      else Result(q, [Data(Body, [ch])])
  }

  function ExecChunkSizeStart(p: Parser, ch: char): Result {
    if p.nread != 1 || !p.flags.chunked then Fail(p, AssertionFailed)
    else if Unhex(ch) == -1 then Fail(p, InvalidChunkSize)
    else Result(p.(contentLength := Unhex(ch), state := ChunkSize), [])
  }

  function ExecChunkSize(p: Parser, ch: char): Result {
    if !p.flags.chunked then Fail(p, AssertionFailed)
    else if ch == CR then Result(p.(state := ChunkSizeAlmostDone), [])
    else if Unhex(ch) == -1 then
      if ch == ';' || ch == ' ' then Result(p.(state := ChunkParameters), []) else Fail(p, InvalidChunkSize)
    else
      match Accumulate(p.contentLength, 16, Unhex(ch))
      case None => Fail(p, InvalidContentLength)
      case Some(t) => Result(p.(contentLength := t), [])
  }

  function ExecChunkParameters(p: Parser, ch: char): Result {
    if !p.flags.chunked then Fail(p, AssertionFailed)
    else Result(if ch == CR then p.(state := ChunkSizeAlmostDone) else p, [])
  }

  function ExecChunkSizeAlmostDone(p: Parser, ch: char): Result {
    if !p.flags.chunked then Fail(p, AssertionFailed)
    else if ch != LF then Fail(p, Strict)
    else if p.contentLength == 0 then
      Result(p.(nread := 0, flags := p.flags.(trailing := true), state := HeaderFieldStart), [])
    else Result(p.(nread := 0, state := ChunkData), [])
  }

  /** One byte of chunk data. */
  function ExecChunkData(p: Parser, ch: char): Result {
    if !p.flags.chunked || p.contentLength == 0 || p.contentLength == ULLONG_MAX then Fail(p, AssertionFailed)
    else
      var q := p.(contentLength := p.contentLength - 1);
      Result(if q.contentLength == 0 then q.(state := ChunkDataAlmostDone) else q, [Data(Body, [ch])])
  }

  function ExecChunkDataAlmostDone(p: Parser, ch: char): Result {
    if !p.flags.chunked || p.contentLength != 0 then Fail(p, AssertionFailed)
    else Expect(p, ch, CR, ChunkDataDone)
  }

  function ExecChunkDataDone(p: Parser, ch: char): Result {
    if !p.flags.chunked then Fail(p, AssertionFailed)
    else if ch != LF then Fail(p, Strict)
    else Result(p.(nread := 0, state := ChunkSizeStart), [])
  }

  function ExecDead(p: Parser, ch: char): Result {
    if ch == CR || ch == LF then Result(p, []) else Fail(p, ClosedConnection)
  }

  function Exec(p: Parser, ch: char): Result {
    match p.state
    case Dead => ExecDead(p, ch)
    case StartReq => ExecStart(p, ch)
    case ReqMethod => ExecMethod(p, ch)
    case HeaderFieldStart => ExecFieldStart(p, ch)
    case HeaderField => ExecField(p, ch)
    case HeaderValueStart => ExecValueStart(p, ch)
    case HeaderValue => ExecValue(p, ch)
    case HeaderValueLws => ExecLws(p, ch)
    case HeaderAlmostDone => ExecAlmostDone(p, ch)
    case ChunkSizeStart => ExecChunkSizeStart(p, ch)
    case ChunkSize => ExecChunkSize(p, ch)
    case ChunkParameters => ExecChunkParameters(p, ch)
    case ChunkSizeAlmostDone => ExecChunkSizeAlmostDone(p, ch)
    case HeadersAlmostDone => ExecHeadersAlmostDone(p, ch)
    case HeadersDone => ExecHeadersDone(p, ch)
    case ChunkData => ExecChunkData(p, ch)
    case ChunkDataAlmostDone => ExecChunkDataAlmostDone(p, ch)
    case ChunkDataDone => ExecChunkDataDone(p, ch)
    case BodyIdentity => ExecBody(p, ch)
    case MessageDone => ExecMessageDone(p)
    case _ =>
      if p.state == ReqSpacesBeforeUrl || IsUrlState(p.state) then ExecUrl(p, ch) else ExecVersion(p, ch)
  }

  /** After an error or an upgrade the parser takes no more bytes. */
  predicate Halted(p: Parser) { p.errno != OK || p.upgrade }

  /** Where a header line may start: behind the request line, or behind another header line. */
  predicate AtHeader(p: Parser) { !Halted(p) && (p.state == HeaderFieldStart || p.state == HeaderValueLws) }

  /** The header byte count comes first and has its own limit. */
  function Counted(p: Parser): Parser {
    if !ParsingHeader(p.state) then p
    else if p.nread + 1 > HTTP_MAX_HEADER_SIZE then p.(nread := p.nread + 1, errno := HeaderOverflow)
    else p.(nread := p.nread + 1)
  }

  function Step(p: Parser, ch: char): Result {
    var q := Counted(p);
    if q.errno != OK then Result(q, []) else Exec(q, ch)
  }

  // ---------- runs ----------

  /** Appends to a log; data of one kind that arrives in a row is one entry. */
  function Log(log: seq<Event>, e: Event): (r: seq<Event>)
    ensures r != []
  {
    if e.Data? && log != [] && log[|log| - 1].Data? && log[|log| - 1].kind == e.kind
    then log[|log| - 1 := Data(e.kind, log[|log| - 1].bytes + e.bytes)]
    else log + [e]
  }

  function LogAll(log: seq<Event>, es: seq<Event>): seq<Event>
    decreases |es|
  {
    if es == [] then log else LogAll(Log(log, es[0]), es[1..])
  }

  datatype Session = Session(parser: Parser, log: seq<Event>, consumed: nat)

  const START := Session(INIT, [], 0)

  /** The byte that causes an error is not consumed. */
  function Advance(s: Session, ch: char): Session {
    var r := Step(s.parser, ch);
    Session(r.parser, LogAll(s.log, r.events), if r.parser.errno != OK then s.consumed else s.consumed + 1)
  }

  function Run(s: Session, data: string): Session
    decreases |data|
  {
    if data == "" || Halted(s.parser) then s else Run(Advance(s, data[0]), data[1..])
  }

  lemma RunOne(s: Session, ch: char, rest: string)
    requires !Halted(s.parser)
    ensures Run(s, [ch] + rest) == Run(Advance(s, ch), rest)
  {
    assert ([ch] + rest)[1..] == rest;
  }

  lemma RunHalted(s: Session, data: string)
    requires Halted(s.parser)
    ensures Run(s, data) == s
  {
  }

  lemma RunTwo(s: Session, a: char, b: char)
    requires !Halted(s.parser) && !Halted(Advance(s, a).parser)
    ensures Run(s, [a, b]) == Advance(Advance(s, a), b)
  {
    hide Advance;
    assert [a, b] == [a] + [b];
    RunOne(s, a, [b]);
    RunSingle(Advance(s, a), b);
  }

  lemma RunNothing(s: Session)
    ensures Run(s, "") == s
  {
  }

  lemma RunSingle(s: Session, ch: char)
    requires !Halted(s.parser)
    ensures Run(s, [ch]) == Advance(s, ch)
  {
    hide Advance;
    assert [ch][1..] == "";
  }

  /** How the input is cut does not matter to the byte machine. */
  lemma {:induction false} RunSplit(s: Session, a: string, b: string)
    ensures Run(s, a + b) == Run(Run(s, a), b)
    decreases |a|
  {
    if a == "" {
      assert a + b == b;
    } else if Halted(s.parser) {
    } else {
      assert (a + b)[0] == a[0] && (a + b)[1..] == a[1..] + b;
      RunSplit(Advance(s, a[0]), a[1..], b);
    }
  }

  lemma {:induction false} RunPieces(s: Session, pieces: seq<string>, last: string)
    ensures Run(s, Concat(pieces + [last])) == Run(Run(s, Concat(pieces)), last)
  {
    ConcatAppend(pieces, last);
    RunSplit(s, Concat(pieces), last);
  }

  /** Joining data entries is associative: bytes may be delivered in any portions. */
  lemma LogJoin(log: seq<Event>, kind: Kind, x: string, y: string)
    ensures Log(Log(log, Data(kind, x)), Data(kind, y)) == Log(log, Data(kind, x + y))
  {
    if log != [] && log[|log| - 1].Data? && log[|log| - 1].kind == kind {
      assert log[|log| - 1].bytes + x + y == log[|log| - 1].bytes + (x + y);
    }
  }

  lemma LogNone(log: seq<Event>)
    ensures LogAll(log, []) == log
  {
  }

  lemma LogOne(log: seq<Event>, e: Event)
    ensures LogAll(log, [e]) == Log(log, e)
  {
    assert LogAll(Log(log, e), [e][1..]) == Log(log, e);
  }

  lemma LogTwo(log: seq<Event>, d: Event, e: Event)
    ensures LogAll(log, [d] + [e]) == Log(Log(log, d), e)
  {
    assert ([d] + [e])[1..] == [e];
    LogOne(Log(log, d), e);
  }

  /** The log ends in data of this kind. */
  predicate EndsIn(log: seq<Event>, kind: Kind) {
    log != [] && log[|log| - 1].Data? && log[|log| - 1].kind == kind
  }

  lemma LogEnds(log: seq<Event>, kind: Kind, bytes: string)
    ensures EndsIn(Log(log, Data(kind, bytes)), kind)
  {
  }

  lemma LogNothing(log: seq<Event>, kind: Kind)
    requires EndsIn(log, kind)
    ensures Log(log, Data(kind, "")) == log
  {
    var last := log[|log| - 1];
    assert last.bytes + "" == last.bytes;
  }
}
