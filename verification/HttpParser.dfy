/** http_parser_execute: a buffer at a time, with marks into the buffer and callbacks for whole portions.
    It is proved to be the byte machine of HttpMachine, however the input is cut into buffers. */
module HttpParser {
  import opened Common
  import opened HttpMachine
  import opened HttpBodies
  import opened HttpSafety

  class Parser {
    var state: State
    var headerState: HeaderState
    var index: nat
    var nread: nat
    var contentLength: nat
    var httpMajor: nat
    var httpMinor: nat
    var method_: Method
    var flags: Flags
    var upgrade: bool
    var errno: Errno

    /** The callbacks made so far, one entry a call; they all return 0. */
    var calls: seq<Event>

    // The mark pointers of http_parser_execute, as offsets into the buffer.
    var urlMark: Option<nat>
    var fieldMark: Option<nat>
    var valueMark: Option<nat>
    var bodyMark: Option<nat>

    function Abs(): HttpMachine.Parser
      reads this
    {
      HttpMachine.Parser(state, headerState, index, nread, contentLength, httpMajor, httpMinor, method_, flags, upgrade, errno)
    }

    /** The calls with adjacent data portions of one kind joined. */
    ghost function Joined(): seq<Event>
      reads this
    {
      LogAll([], calls)
    }

    /** Everything delivered or marked, joined. */
    ghost function Seen(data: string, p: nat): seq<Event>
      requires p <= |data|
      reads this
    {
      if urlMark.Some? then Marked(Joined(), Url, data, urlMark.value, p)
      else if fieldMark.Some? then Marked(Joined(), Field, data, fieldMark.value, p)
      else if valueMark.Some? then Marked(Joined(), FieldValue, data, valueMark.value, p)
      else if bodyMark.Some? then Marked(Joined(), Body, data, bodyMark.value, p)
      else Joined()
    }

    /** At most one mark is set, and the state says which. */
    ghost predicate MarksFit(p: nat)
      reads this
    {
      if IsUrlState(state) then
        urlMark.Some? && Before(urlMark.value, p) && fieldMark == valueMark == bodyMark == None
      else if state == HeaderField then
        fieldMark.Some? && Before(fieldMark.value, p) && urlMark == valueMark == bodyMark == None
      else if state == HeaderValue then
        valueMark.Some? && Before(valueMark.value, p) && urlMark == fieldMark == bodyMark == None
      else
        && urlMark == fieldMark == valueMark == None
        && (bodyMark.Some? ==> state == ChunkDataAlmostDone && bodyMark.value < p)
    }

    constructor ()
      ensures Abs() == INIT && calls == [] && Valid()
    {
      state, headerState, index, nread, contentLength := StartReq, HGeneral, 0, 0, 0;
      httpMajor, httpMinor, method_, flags, upgrade, errno := 0, 0, DELETE, NO_FLAGS, false, OK;
      calls := [];
      urlMark, fieldMark, valueMark, bodyMark := None, None, None, None;
    }

    /** What one byte does, fields and callbacks together. */
    twostate predicate Did(r: Result, data: string, p: nat)
      requires p < |data|
      reads this
    {
      && Abs() == r.parser
      && (errno == OK ==> MarksFit(p + 1) && Seen(data, p + 1) == LogEvents(old(Seen(data, p)), r.events))
      && (errno != OK ==> Seen(data, p) == old(Seen(data, p)) && r.events == [])
    }

    method Notify(e: Event)
      requires !e.Data?
      modifies `calls
      ensures Joined() == Log(old(Joined()), e)
    {
      LogAllAppend([], calls, e);
      calls := calls + [e];
    }

    method DeliverUrl(data: string, end: nat)
      requires urlMark.Some? && urlMark.value <= end <= |data|
      modifies `calls, `urlMark
      ensures urlMark == None && Joined() == Log(old(Joined()), Data(Url, data[old(urlMark.value)..end]))
    {
      LogAllAppend([], calls, Data(Url, data[urlMark.value..end]));
      calls := calls + [Data(Url, data[urlMark.value..end])];
      urlMark := None;
    }

    method DeliverField(data: string, end: nat)
      requires fieldMark.Some? && fieldMark.value <= end <= |data|
      modifies `calls, `fieldMark
      ensures fieldMark == None && Joined() == Log(old(Joined()), Data(Field, data[old(fieldMark.value)..end]))
    {
      LogAllAppend([], calls, Data(Field, data[fieldMark.value..end]));
      calls := calls + [Data(Field, data[fieldMark.value..end])];
      fieldMark := None;
    }

    method DeliverValue(data: string, end: nat)
      requires valueMark.Some? && valueMark.value <= end <= |data|
      modifies `calls, `valueMark
      ensures valueMark == None && Joined() == Log(old(Joined()), Data(FieldValue, data[old(valueMark.value)..end]))
    {
      LogAllAppend([], calls, Data(FieldValue, data[valueMark.value..end]));
      calls := calls + [Data(FieldValue, data[valueMark.value..end])];
      valueMark := None;
    }

    method DeliverBody(data: string, end: nat)
      requires bodyMark.Some? && bodyMark.value <= end <= |data|
      modifies `calls, `bodyMark
      ensures bodyMark == None && Joined() == Log(old(Joined()), Data(Body, data[old(bodyMark.value)..end]))
    {
      LogAllAppend([], calls, Data(Body, data[bodyMark.value..end]));
      calls := calls + [Data(Body, data[bodyMark.value..end])];
      bodyMark := None;
    }

    /** Outside URLs and header lines no mark is set. */
    lemma NoMarks(data: string, p: nat)
      requires p <= |data| && MarksFit(p)
      requires !IsUrlState(state) && state != HeaderField && state != HeaderValue && state != ChunkDataAlmostDone
      ensures urlMark == fieldMark == valueMark == bodyMark == None && Seen(data, p) == Joined()
    {
      hide LogAll, Marked;
    }

    lemma StaysUnmarked(data: string, p: nat)
      requires p < |data| && urlMark == fieldMark == valueMark == bodyMark == None
      requires !IsUrlState(state) && state != HeaderField && state != HeaderValue
      ensures MarksFit(p) && Seen(data, p) == Joined() && MarksFit(p + 1) && Seen(data, p + 1) == Joined()
    {
      hide LogAll, Marked;
    }

    // ---------- states between messages and the request line ----------

    method ByteStart(data: string, p: nat)
      requires p < |data| && errno == OK && MarksFit(p) && state == StartReq
      modifies this
      ensures Did(ExecStart(old(Abs()), data[p]), data, p)
    {
      hide Marked, Log, LogAll, Seen, MarksFit, IsAlpha, FirstMethod;
      NoMarks(data, p);
      StaysUnmarked(data, p);
      var ch := data[p];
      if ch == CR || ch == LF {
        return;
      }
      flags := NO_FLAGS;
      contentLength := ULLONG_MAX;
      if !IsAlpha(ch) {
        errno := InvalidMethod;
        StaysUnmarked(data, p);
        return;
      }
      method_ := DELETE;
      index := 1;
      var first := FirstMethod(ch);
      if first.None? {
        errno := InvalidMethod;
        StaysUnmarked(data, p);
        return;
      }
      method_ := first.value;
      state := ReqMethod;
      Notify(MessageBegin);
      StaysUnmarked(data, p);
    }

    method ByteMethod(data: string, p: nat)
      requires p < |data| && errno == OK && MarksFit(p) && state == ReqMethod
      modifies this
      ensures Did(ExecMethod(old(Abs()), data[p]), data, p)
    {
      var ch := data[p];
      var matcher := MethodLiteral(method_);
      if ch == '\0' {
        errno := InvalidMethod;
        return;
      }
      if ch == ' ' && CharAt(matcher, index) == '\0' {
        state := ReqSpacesBeforeUrl;
      } else if ch != CharAt(matcher, index) {
        var other := OtherMethod(method_, index, ch);
        if other.None? {
          errno := InvalidMethod;
          return;
        }
        method_ := other.value;
      }
      index := index + 1;
    }

    method ByteUrl(data: string, p: nat)
      requires p < |data| && errno == OK && MarksFit(p) && (state == ReqSpacesBeforeUrl || IsUrlState(state))
      modifies this
      ensures Did(ExecUrl(old(Abs()), data[p]), data, p)
    {
      hide Marked, Log, LogAll, UrlByte;
      var ch := data[p];
      if state == ReqSpacesBeforeUrl {
        if ch == ' ' {
          return;
        }
        FirstUrlByte(data, p);
        return;
      }
      if state == ReqSchema || state == ReqSchemaSlash || state == ReqSchemaSlashSlash || state == ReqServerStart {
        if ch == ' ' || ch == CR || ch == LF {
          errno := InvalidUrl;
          return;
        }
      } else if ch == ' ' || ch == CR || ch == LF {
        EndUrl(data, p);
        return;
      }
      NextUrlByte(data, p, state);
    }

    method FirstUrlByte(data: string, p: nat)
      requires p < |data| && errno == OK && MarksFit(p) && state == ReqSpacesBeforeUrl
      modifies `urlMark, `state, `errno
      ensures Did(UrlByte(old(Abs()), if old(method_) == CONNECT then ReqServerStart else ReqSpacesBeforeUrl, data[p]), data, p)
    {
      hide Marked, Log, LogAll, Seen, MarksFit, ParseUrlChar, IsUrlState;
      NotUrl();
      NoMarks(data, p);
      urlMark := Some(p);
      var from := if method_ == CONNECT then ReqServerStart else ReqSpacesBeforeUrl;
      MarkedHere(Joined(), Url, data, p);
      UrlStates(from, data[p]);
      state := ParseUrlChar(from, data[p]);
      if state == Dead {
        errno := InvalidUrl;
        DeadUrl(data, p);
        return;
      }
      UrlMarked(data, p);
    }

    method NextUrlByte(data: string, p: nat, from: State)
      requires p < |data| && errno == OK && MarksFit(p) && IsUrlState(state) && from == state
      modifies `state, `errno
      ensures Did(UrlByte(old(Abs()), from, data[p]), data, p)
    {
      hide Marked, Log, LogAll, Seen, MarksFit, ParseUrlChar, IsUrlState;
      UrlMark(data, p);
      UrlStates(from, data[p]);
      state := ParseUrlChar(from, data[p]);
      if state == Dead {
        errno := InvalidUrl;
        DeadUrl(data, p);
        return;
      }
      UrlMarked(data, p);
    }

    lemma NotUrl()
      ensures !IsUrlState(ReqSpacesBeforeUrl)
    {
    }

    /** In a URL the URL mark is set, and only it. */
    lemma UrlMark(data: string, p: nat)
      requires p <= |data| && MarksFit(p) && IsUrlState(state)
      ensures urlMark.Some? && urlMark.value <= p && fieldMark == valueMark == bodyMark == None
      ensures Seen(data, p) == Marked(Joined(), Url, data, urlMark.value, p)
    {
      hide Marked, LogAll;
    }

    lemma UrlMarked(data: string, p: nat)
      requires p < |data| && urlMark.Some? && urlMark.value <= p && fieldMark == valueMark == bodyMark == None
      requires IsUrlState(state)
      ensures MarksFit(p + 1)
      ensures Seen(data, p + 1) == Log(Marked(Joined(), Url, data, urlMark.value, p), Data(Url, [data[p]]))
    {
      hide Marked, Log, LogAll;
      ExtendMark(Joined(), Url, data, urlMark.value, p);
    }

    lemma DeadUrl(data: string, p: nat)
      requires p < |data| && urlMark.Some? && urlMark.value <= p
      ensures Seen(data, p) == Marked(Joined(), Url, data, urlMark.value, p)
    {
      hide Marked, LogAll;
    }

    /** The byte that ends a URL. */
    method EndUrl(data: string, p: nat)
      requires p < |data| && errno == OK && MarksFit(p) && IsUrlState(state)
      requires state != ReqSchema && state != ReqSchemaSlash && state != ReqSchemaSlashSlash && state != ReqServerStart
      requires data[p] == ' ' || data[p] == CR || data[p] == LF
      modifies this
      ensures Did(ExecUrl(old(Abs()), data[p]), data, p)
    {
      hide Marked, Log, LogAll, Seen, MarksFit, ExecUrl;
      UrlMark(data, p);
      CloseMark(Joined(), Url, data, urlMark.value, p);
      LeaveUrl(data[p]);
      DeliverUrl(data, p);
      StaysUnmarked(data, p);
    }

    method LeaveUrl(ch: char)
      requires IsUrlState(state) && (ch == ' ' || ch == CR || ch == LF)
      requires state != ReqSchema && state != ReqSchemaSlash && state != ReqSchemaSlashSlash && state != ReqServerStart
      modifies `state, `httpMajor, `httpMinor
      ensures var r := ExecUrl(old(Abs()), ch); Abs() == r.parser && r.events == [Data(Url, "")]
      ensures !IsUrlState(state) && state != HeaderField && state != HeaderValue
    {
      if ch == ' ' {
        state := ReqHttpStart;
      } else {
        httpMajor := 0;
        httpMinor := 9;
        state := if ch == CR then ReqLineAlmostDone else HeaderFieldStart;
      }
    }

    method ExpectByte(ch: char, want: char, next: State)
      requires errno == OK
      modifies `errno, `state
      ensures Abs() == Expect(old(Abs()), ch, want, next).parser
    {
      if ch != want {
        errno := Strict;
        return;
      }
      state := next;
    }

    method ByteVersion(ch: char)
      requires errno == OK && IsVersionState(state)
      modifies `state, `errno, `httpMajor, `httpMinor
      ensures Abs() == ExecVersion(old(Abs()), ch).parser && ExecVersion(old(Abs()), ch).events == []
      ensures errno == OK ==> IsVersionState(state) || state == HeaderFieldStart
      ensures errno != OK ==> state == old(state)
    {
      hide ExecVersion;
      if state == ReqFirstHttpMajor || state == ReqHttpMajor || state == ReqFirstHttpMinor || state == ReqHttpMinor {
        ByteVersionNumber(ch);
      } else {
        ByteProtocol(ch);
      }
    }

    method ByteProtocol(ch: char)
      requires errno == OK && IsVersionState(state)
      requires state != ReqFirstHttpMajor && state != ReqHttpMajor && state != ReqFirstHttpMinor && state != ReqHttpMinor
      modifies `state, `errno
      ensures Abs() == ExecVersion(old(Abs()), ch).parser && ExecVersion(old(Abs()), ch).events == []
      ensures errno == OK ==> IsVersionState(state) || state == HeaderFieldStart
      ensures errno != OK ==> state == old(state)
    {
      match state {
        case ReqHttpStart =>
          if ch == 'H' {
            state := ReqHttpH;
          } else if ch != ' ' {
            errno := InvalidConstant;
          }
        case ReqHttpH => ExpectByte(ch, 'T', ReqHttpHT);
        case ReqHttpHT => ExpectByte(ch, 'T', ReqHttpHTT);
        case ReqHttpHTT => ExpectByte(ch, 'P', ReqHttpHTTP);
        case ReqHttpHTTP => ExpectByte(ch, '/', ReqFirstHttpMajor);
        case ReqLineAlmostDone =>
          if ch != LF {
            errno := LfExpected;
          } else {
            state := HeaderFieldStart;
          }
      }
    }

    method ByteVersionNumber(ch: char)
      requires errno == OK && (state == ReqFirstHttpMajor || state == ReqHttpMajor || state == ReqFirstHttpMinor || state == ReqHttpMinor)
      modifies `state, `errno, `httpMajor, `httpMinor
      ensures Abs() == ExecVersion(old(Abs()), ch).parser && ExecVersion(old(Abs()), ch).events == []
      ensures errno == OK ==> IsVersionState(state) || state == HeaderFieldStart
      ensures errno != OK ==> state == old(state)
    {
      if state == ReqFirstHttpMajor {
        if ch < '1' || ch > '9' {
          errno := InvalidVersion;
        } else {
          httpMajor := Digit(ch);
          state := ReqHttpMajor;
        }
      } else if state == ReqHttpMajor {
        if ch == '.' {
          state := ReqFirstHttpMinor;
        } else if !IsNum(ch) {
          errno := InvalidVersion;
        } else {
          httpMajor := httpMajor * 10;
          httpMajor := httpMajor + Digit(ch);
          if httpMajor > 999 {
            errno := InvalidVersion;
          }
        }
      } else {
        ByteMinorVersion(ch);
      }
    }

    method ByteMinorVersion(ch: char)
      requires errno == OK && (state == ReqFirstHttpMinor || state == ReqHttpMinor)
      modifies `state, `errno, `httpMinor
      ensures Abs() == ExecVersion(old(Abs()), ch).parser && ExecVersion(old(Abs()), ch).events == []
      ensures errno == OK ==> IsVersionState(state) || state == HeaderFieldStart
      ensures errno != OK ==> state == old(state)
    {
      if state == ReqFirstHttpMinor {
        if !IsNum(ch) {
          errno := InvalidVersion;
        } else {
          httpMinor := Digit(ch);
          state := ReqHttpMinor;
        }
      } else if ch == CR {
        state := ReqLineAlmostDone;
      } else if ch == LF {
        state := HeaderFieldStart;
      } else if !IsNum(ch) {
        errno := InvalidVersion;
      } else {
        httpMinor := httpMinor * 10;
        httpMinor := httpMinor + Digit(ch);
        if httpMinor > 999 {
          errno := InvalidVersion;
        }
      }
    }

    // ---------- headers ----------

    method ByteFieldStart(data: string, p: nat)
      requires p < |data| && errno == OK && MarksFit(p) && state == HeaderFieldStart
      modifies this
      ensures Did(ExecFieldStart(old(Abs()), data[p]), data, p)
    {
      hide Marked, Log, LogAll, ExecHeadersAlmostDone, Token, FirstFieldByte, Seen, MarksFit;
      NoMarks(data, p);
      var ch := data[p];
      if ch == CR {
        state := HeadersAlmostDone;
        StaysUnmarked(data, p);
        return;
      }
      if ch == LF {
        state := HeadersAlmostDone;
        ByteHeadersAlmostDone(ch);
        StaysUnmarked(data, p);
        return;
      }
      var c := Token(ch);
      if c == '\0' {
        errno := InvalidHeaderToken;
        StaysUnmarked(data, p);
        return;
      }
      MarkField(data, p, c);
    }

    method MarkField(data: string, p: nat, c: char)
      requires p < |data| && state == HeaderFieldStart && urlMark == fieldMark == valueMark == bodyMark == None
      modifies `fieldMark, `index, `state, `headerState
      ensures Abs() == old(Abs()).(index := 0, state := HeaderField, headerState := FirstFieldByte(c))
      ensures fieldMark == Some(p) && Seen(data, p + 1) == Log(old(Joined()), Data(Field, [data[p]])) && MarksFit(p + 1)
    {
      hide Log, LogAll, FirstFieldByte;
      fieldMark := Some(p);
      index := 0;
      state := HeaderField;
      headerState := FirstFieldByte(c);
      ExtendMark(Joined(), Field, data, p, p);
    }

    method ByteHeadersAlmostDone(ch: char)
      requires errno == OK && state == HeadersAlmostDone
      requires urlMark == fieldMark == valueMark == bodyMark == None
      modifies `state, `errno, `upgrade, `nread, `calls
      ensures var r := ExecHeadersAlmostDone(old(Abs()), ch);
        && Abs() == r.parser && Joined() == LogEvents(old(Joined()), r.events)
        && (errno == OK ==> state == StartReq || state == Dead || state == ChunkSizeStart || state == BodyIdentity)
        && (errno != OK ==> r.events == [] && state == old(state))
    {
      hide Log, LogAll;
      if ch != LF {
        errno := Strict;
        return;
      }
      if flags.trailing {
        state := NewMessage(Abs());
        Notify(MessageComplete);
        return;
      }
      state := HeadersDone;
      upgrade := flags.upgrade || method_ == CONNECT;
      Notify(HeadersComplete);
      ByteHeadersDone(ch);
    }

    method ByteHeadersDone(ch: char)
      requires errno == OK && state == HeadersDone && ch == LF
      modifies `state, `nread, `calls
      ensures var r := ExecHeadersDone(old(Abs()), ch);
        && Abs() == r.parser
        && (r.events == [] || r.events == [MessageComplete])
        && Joined() == (if r.events == [] then old(Joined()) else Log(old(Joined()), MessageComplete))
        && (state == StartReq || state == Dead || state == ChunkSizeStart || state == BodyIdentity)
    {
      nread := 0;
      if upgrade {
        state := NewMessage(Abs());
        Notify(MessageComplete);
      } else if flags.chunked {
        state := ChunkSizeStart;
      } else if contentLength == 0 {
        state := NewMessage(Abs());
        Notify(MessageComplete);
      } else if contentLength != ULLONG_MAX {
        state := BodyIdentity;
      } else {
        state := NewMessage(Abs());
        Notify(MessageComplete);
      }
    }

    method MatchByte(lit: string, c: char, done: HeaderState)
      modifies `index, `headerState
      ensures Abs() == MatchNext(old(Abs()), lit, c, done)
    {
      index := index + 1;
      if index > |lit| || c != CharAt(lit, index) {
        headerState := HGeneral;
      } else if index == |lit| - 1 {
        headerState := done;
      }
    }

    method FieldHeaderState(c: char, ch: char)
      requires errno == OK
      modifies `index, `headerState, `errno
      ensures Abs() == FieldByte(old(Abs()), c, ch)
    {
      match headerState {
        case HGeneral =>
        case HC =>
          index := index + 1;
          headerState := if c == 'o' then HCO else HGeneral;
        case HCO =>
          index := index + 1;
          headerState := if c == 'n' then HCON else HGeneral;
        case HCON =>
          index := index + 1;
          headerState := if c == 'n' then HMatchingConnection else if c == 't' then HMatchingContentLength else HGeneral;
        case HMatchingConnection => MatchByte(CONNECTION, c, HConnection);
        case HMatchingProxyConnection => MatchByte(PROXY_CONNECTION, c, HConnection);
        case HMatchingContentLength => MatchByte(CONTENT_LENGTH, c, HContentLength);
        case HMatchingTransferEncoding => MatchByte(TRANSFER_ENCODING, c, HTransferEncoding);
        case HMatchingUpgrade => MatchByte(UPGRADE, c, HUpgrade);
        case HConnection => if ch != ' ' { headerState := HGeneral; }
        case HContentLength => if ch != ' ' { headerState := HGeneral; }
        case HTransferEncoding => if ch != ' ' { headerState := HGeneral; }
        case HUpgrade => if ch != ' ' { headerState := HGeneral; }
        case _ => errno := AssertionFailed;
      }
    }

    method ByteField(data: string, p: nat)
      requires p < |data| && errno == OK && MarksFit(p) && state == HeaderField
      modifies this
      ensures Did(ExecField(old(Abs()), data[p]), data, p)
    {
      hide Marked, Log, LogAll, FieldByte, Token;
      var ch := data[p];
      var c := Token(ch);
      if c != '\0' {
        FieldByteKeeps(Abs(), c, ch);
        FieldHeaderState(c, ch);
        ExtendMark(old(Joined()), Field, data, fieldMark.value, p);
        return;
      }
      if ch == ':' || ch == CR || ch == LF {
        CloseMark(old(Joined()), Field, data, fieldMark.value, p);
        state := if ch == ':' then HeaderValueStart else if ch == CR then HeaderAlmostDone else HeaderFieldStart;
        DeliverField(data, p);
        return;
      }
      errno := InvalidHeaderToken;
    }

    method ByteValueStart(data: string, p: nat)
      requires p < |data| && errno == OK && MarksFit(p) && state == HeaderValueStart
      modifies this
      ensures Did(ExecValueStart(old(Abs()), data[p]), data, p)
    {
      hide Marked, Log, LogAll, Seen, MarksFit, ExecValueStart;
      NoMarks(data, p);
      var ch := data[p];
      if ch == ' ' || ch == '\t' {
        SpaceSkipped(Abs(), ch);
        StaysUnmarked(data, p);
        return;
      }
      IndexStartsOver(Abs(), ch);
      StartValue(data, p);
    }

    /** A byte that is not a blank starts the value, or ends it at once. */
    method StartValue(data: string, p: nat)
      requires p < |data| && errno == OK && state == HeaderValueStart && data[p] != ' ' && data[p] != '\t'
      requires urlMark == fieldMark == valueMark == bodyMark == None
      modifies this
      ensures Did(ExecValueStart(old(Abs().(index := 0)), data[p]), data, p)
    {
      hide Marked, Log, LogAll, MarksFit, ExecValueStart;
      var ch := data[p];
      valueMark := Some(p);
      state := HeaderValue;
      index := 0;
      if ch == CR || ch == LF {
        EndEmptyValue(data, p);
        StaysUnmarked(data, p);
        return;
      }
      FirstValueByte(ch);
      ValueMarked(data, p);
    }

    lemma SpaceSkipped(q: HttpMachine.Parser, ch: char)
      requires ch == ' ' || ch == '\t'
      ensures ExecValueStart(q, ch) == Result(q, [])
    {
    }

    lemma IndexStartsOver(q: HttpMachine.Parser, ch: char)
      requires ch != ' ' && ch != '\t'
      ensures ExecValueStart(q, ch) == ExecValueStart(q.(index := 0), ch)
    {
    }

    lemma ValueMarked(data: string, p: nat)
      requires p < |data| && state == HeaderValue && valueMark == Some(p) && urlMark == fieldMark == bodyMark == None
      ensures Seen(data, p) == Joined() && MarksFit(p + 1)
      ensures Seen(data, p + 1) == Log(Joined(), Data(FieldValue, [data[p]]))
    {
      hide Marked, Log, LogAll;
      MarkedHere(Joined(), FieldValue, data, p);
      ExtendMark(Joined(), FieldValue, data, p, p);
    }

    /** A header without a value delivers an empty one. */
    method EndEmptyValue(data: string, p: nat)
      requires p < |data| && (data[p] == CR || data[p] == LF)
      requires errno == OK && state == HeaderValue && index == 0 && valueMark == Some(p)
      requires urlMark == fieldMark == bodyMark == None
      modifies `state, `headerState, `calls, `valueMark
      ensures var r := ExecValueStart(old(Abs()).(state := HeaderValueStart), data[p]);
        Abs() == r.parser && r.events == [Data(FieldValue, "")]
      ensures valueMark == None && Joined() == Log(old(Joined()), Data(FieldValue, ""))
      ensures state == HeaderAlmostDone || state == HeaderFieldStart
    {
      hide Log, LogAll;
      if data[p] == CR {
        headerState := HGeneral;
        state := HeaderAlmostDone;
      } else {
        state := HeaderFieldStart;
      }
      assert data[p..p] == "";
      DeliverValue(data, p);
    }

    method FirstValueByte(ch: char)
      requires errno == OK && state == HeaderValue && index == 0 && ch != CR && ch != LF && ch != ' ' && ch != '\t'
      modifies `flags, `headerState, `contentLength, `errno
      ensures var r := ExecValueStart(old(Abs()).(state := HeaderValueStart), ch);
        Abs() == r.parser && r.events == if errno == OK then [Data(FieldValue, [ch])] else []
    {
      match headerState {
        case HUpgrade =>
          flags := flags.(upgrade := true);
          headerState := HGeneral;
        case HTransferEncoding =>
          headerState := if Lower(ch) == 'c' then HMatchingChunked else HGeneral;
        case HContentLength =>
          if !IsNum(ch) {
            errno := InvalidContentLength;
          } else {
            contentLength := Digit(ch);
          }
        case HConnection =>
          headerState := if Lower(ch) == 'k' then HMatchingKeepAlive else if Lower(ch) == 'c' then HMatchingClose else HGeneral;
        case _ => headerState := HGeneral;
      }
    }

    method ByteValue(data: string, p: nat)
      requires p < |data| && errno == OK && MarksFit(p) && state == HeaderValue
      modifies this
      ensures Did(ExecValue(old(Abs()), data[p]), data, p)
    {
      hide Marked, Log, LogAll, ValueByte, ExecAlmostDone;
      var ch := data[p];
      if ch == CR || ch == LF {
        EndValue(data, p);
        return;
      }
      ValueByteKeeps(Abs(), ch);
      ValueHeaderState(ch);
      ExtendMark(old(Joined()), FieldValue, data, valueMark.value, p);
    }

    /** The byte that ends a header line. */
    method EndValue(data: string, p: nat)
      requires p < |data| && errno == OK && MarksFit(p) && state == HeaderValue && (data[p] == CR || data[p] == LF)
      modifies this
      ensures Did(ExecValue(old(Abs()), data[p]), data, p)
    {
      hide Marked, Log, LogAll, ExecAlmostDone;
      CloseMark(old(Joined()), FieldValue, data, valueMark.value, p);
      state := HeaderAlmostDone;
      DeliverValue(data, p);
      if data[p] == LF {
        ByteAlmostDone(data[p]);
      }
    }

    method ValueHeaderState(ch: char)
      requires errno == OK
      modifies `index, `headerState, `contentLength, `errno
      ensures Abs() == ValueByte(old(Abs()), ch)
    {
      match headerState {
        case HGeneral =>
        case HConnection => errno := AssertionFailed;
        case HTransferEncoding => errno := AssertionFailed;
        case HContentLength =>
          if ch != ' ' {
            if !IsNum(ch) {
              errno := InvalidContentLength;
            } else {
              var t := contentLength;
              t := (t * 10 + Digit(ch)) % (ULLONG_MAX + 1);
              if t < contentLength || t == ULLONG_MAX {
                errno := InvalidContentLength;
              } else {
                contentLength := t;
              }
            }
          }
        case HMatchingChunked => MatchByte(CHUNKED, Lower(ch), HChunked);
        case HMatchingKeepAlive => MatchByte(KEEP_ALIVE, Lower(ch), HKeepAlive);
        case HMatchingClose => MatchByte(CLOSE, Lower(ch), HClose);
        case HChunked => if ch != ' ' { headerState := HGeneral; }
        case HKeepAlive => if ch != ' ' { headerState := HGeneral; }
        case HClose => if ch != ' ' { headerState := HGeneral; }
        case _ => headerState := HGeneral;
      }
    }

    method ByteAlmostDone(ch: char)
      requires errno == OK && state == HeaderAlmostDone
      modifies `state, `errno, `flags
      ensures var r := ExecAlmostDone(old(Abs()), ch); Abs() == r.parser && r.events == []
      ensures errno == OK ==> state == HeaderValueLws
      ensures ch == LF ==> errno == OK
    {
      if ch != LF {
        errno := Strict;
        return;
      }
      state := HeaderValueLws;
      match headerState {
        case HKeepAlive => flags := flags.(keepAlive := true);
        case HClose => flags := flags.(close := true);
        case HChunked => flags := flags.(chunked := true);
        case _ =>
      }
    }

    method ByteLws(data: string, p: nat)
      requires p < |data| && errno == OK && MarksFit(p) && state == HeaderValueLws
      modifies this
      ensures Did(ExecLws(old(Abs()), data[p]), data, p)
    {
      if data[p] == ' ' || data[p] == '\t' {
        state := HeaderValueStart;
      } else {
        state := HeaderFieldStart;
        ByteFieldStart(data, p);
      }
    }

    // ---------- chunks ----------

    method ByteChunkHeader(ch: char)
      requires errno == OK && IsChunkHeaderState(state)
      modifies `state, `errno, `contentLength, `nread, `flags
      ensures var r := ExecChunkHeader(old(Abs()), ch); Abs() == r.parser && r.events == []
      ensures IsChunkHeaderState(state) || state == HeaderFieldStart || state == ChunkData
    {
      if !flags.chunked || (state == ChunkSizeStart && nread != 1) {
        errno := AssertionFailed;
        return;
      }
      var v := Unhex(ch);
      if state == ChunkSizeStart {
        if v == -1 {
          errno := InvalidChunkSize;
        } else {
          contentLength := v;
          state := ChunkSize;
        }
      } else if state == ChunkSize {
        if ch == CR {
          state := ChunkSizeAlmostDone;
        } else if v == -1 {
          if ch == ';' || ch == ' ' {
            state := ChunkParameters;
          } else {
            errno := InvalidChunkSize;
          }
        } else {
          var t := contentLength;
          t := (t * 16 + v) % (ULLONG_MAX + 1);
          if t < contentLength || t == ULLONG_MAX {
            errno := InvalidContentLength;
          } else {
            contentLength := t;
          }
        }
      } else if state == ChunkParameters {
        if ch == CR {
          state := ChunkSizeAlmostDone;
        }
      } else if ch != LF {
        errno := Strict;
      } else {
        nread := 0;
        if contentLength == 0 {
          flags := flags.(trailing := true);
          state := HeaderFieldStart;
        } else {
          state := ChunkData;
        }
      }
    }

    method ByteChunkDataAlmostDone(data: string, p: nat)
      requires p < |data| && errno == OK && MarksFit(p) && state == ChunkDataAlmostDone
      modifies this
      ensures Did(ExecChunkDataAlmostDone(old(Abs()), data[p]), data, p)
    {
      hide Log, LogAll;
      if !flags.chunked || contentLength != 0 {
        errno := AssertionFailed;
        return;
      }
      if data[p] != CR {
        errno := Strict;
        return;
      }
      state := ChunkDataDone;
      if bodyMark.Some? {
        DeliverBody(data, p);
      }
    }

    method ByteChunkDataDone(ch: char)
      requires errno == OK && state == ChunkDataDone
      modifies `errno, `nread, `state
      ensures var r := ExecChunkDataDone(old(Abs()), ch); Abs() == r.parser && r.events == []
      ensures state == ChunkSizeStart || state == ChunkDataDone
    {
      if !flags.chunked {
        errno := AssertionFailed;
        return;
      }
      if ch != LF {
        errno := Strict;
        return;
      }
      nread := 0;
      state := ChunkSizeStart;
    }

    // ---------- the loop ----------

    method ByteInRequestLine(data: string, p: nat)
      requires p < |data| && errno == OK && MarksFit(p) && IsRequestLineState(state)
      modifies this
      ensures Did(Exec(old(Abs()), data[p]), data, p)
    {
      hide Log, LogAll, Exec, ExecStart, ExecMethod, ExecVersion, ExecUrl;
      SwitchRequestLine(Abs(), data[p]);
      if state == Dead {
        if data[p] != CR && data[p] != LF {
          errno := ClosedConnection;
        }
      } else if state == StartReq {
        ByteStart(data, p);
      } else if state == ReqMethod {
        ByteMethod(data, p);
      } else if IsVersionState(state) {
        ByteVersion(data[p]);
      } else {
        ByteUrl(data, p);
      }
    }

    method ByteInHeader(data: string, p: nat)
      requires p < |data| && errno == OK && MarksFit(p) && IsHeaderState(state)
      modifies this
      ensures Did(Exec(old(Abs()), data[p]), data, p)
    {
      hide Log, LogAll, Exec, ExecFieldStart, ExecField, ExecValueStart, ExecValue, ExecLws, ExecAlmostDone, ExecHeadersAlmostDone;
      SwitchHeader(Abs(), data[p]);
      match state {
        case HeaderFieldStart => ByteFieldStart(data, p);
        case HeaderField => ByteField(data, p);
        case HeaderValueStart => ByteValueStart(data, p);
        case HeaderValue => ByteValue(data, p);
        case HeaderValueLws => ByteLws(data, p);
        case HeaderAlmostDone => ByteAlmostDone(data[p]);
        case HeadersAlmostDone => ByteHeadersAlmostDone(data[p]);
      }
    }

    method ByteInChunk(data: string, p: nat)
      requires p < |data| && errno == OK && MarksFit(p)
      requires IsChunkHeaderState(state) || state == ChunkDataAlmostDone || state == ChunkDataDone
      modifies this
      ensures Did(Exec(old(Abs()), data[p]), data, p)
    {
      hide Log, LogAll, Exec, ExecChunkSizeStart, ExecChunkSize, ExecChunkParameters, Seen, MarksFit, Marked;
      SwitchChunk(Abs(), data[p]);
      if IsChunkHeaderState(state) {
        NoMarks(data, p);
        ByteChunkHeader(data[p]);
        StaysUnmarked(data, p);
      } else if state == ChunkDataDone {
        NoMarks(data, p);
        ByteChunkDataDone(data[p]);
        StaysUnmarked(data, p);
      } else {
        ByteChunkDataAlmostDone(data, p);
      }
    }

    /** One byte in any state but the two that take body bytes by the portion. */
    method ByteOther(data: string, p: nat)
      requires p < |data| && errno == OK && MarksFit(p)
      requires state != BodyIdentity && state != ChunkData && state != HeadersDone && state != MessageDone
      modifies this
      ensures Did(Exec(old(Abs()), data[p]), data, p)
    {
      hide Log, LogAll, Exec;
      StateGroups(state);
      if IsHeaderState(state) {
        ByteInHeader(data, p);
      } else if IsRequestLineState(state) {
        ByteInRequestLine(data, p);
      } else {
        ByteInChunk(data, p);
      }
    }

    /** The object invariant between calls. */
    ghost predicate Valid()
      reads this
    {
      Safe(Abs()) && !upgrade && Unmarked()
    }

    /** Counts a header byte and looks at it. */
    method ExecuteByte(data: string, p: nat)
      requires p < |data| && errno == OK && !upgrade && Good(Abs()) && MarksFit(p)
      requires state != BodyIdentity && state != ChunkData
      modifies this
      ensures Did(Step(old(Abs()), data[p]), data, p) && Safe(Abs())
    {
      hide Log, LogAll, Exec, StateGood;
      LogNone(Seen(data, p));
      StepSafe(Abs(), data[p]);
      assert state != HeadersDone && state != MessageDone by { RestingStates(Abs()); }
      ghost var seen := Seen(data, p);
      if ParsingHeader(state) {
        nread := nread + 1;
        if nread > HTTP_MAX_HEADER_SIZE {
          errno := HeaderOverflow;
          return;
        }
      }
      assert Abs() == Counted(old(Abs())) && Seen(data, p) == seen;
      ByteOther(data, p);
    }

    /** Takes as many body bytes as there are, up to the length that is left. */
    method TakeBody(data: string, p0: nat) returns (p: nat)
      requires p0 < |data| && errno == OK && !upgrade && Good(Abs()) && MarksFit(p0)
      requires state == BodyIdentity || state == ChunkData
      modifies this
      ensures p0 < p <= |data| && errno == OK && !upgrade && Good(Abs())
      ensures AtMostOneMark(p) && (p < |data| ==> MarksFit(p))
      ensures Run(Session(old(Abs()), old(Seen(data, p0)), p0), data[p0..p]) == Session(Abs(), Seen(data, p), p)
    {
      hide Run, Log, LogAll, Good, BodyEnd, BodyEndEvents, Marked;
      assert contentLength > 0 by { BodyStates(Abs()); }
      ghost var before, log := Abs(), Joined();
      var toRead := if contentLength < |data| - p0 then contentLength else |data| - p0;
      Portion(before, log, data, p0, toRead);
      ghost var r := Run(Session(before, log, p0), data[p0..p0 + toRead]);
      bodyMark := Some(p0);
      contentLength := contentLength - toRead;
      p := p0 + toRead;
      assert Seen(data, p) == Marked(log, Body, data, p0, p);
      if contentLength == 0 {
        EndBody(data, p, before);
      }
      assert Abs() == r.parser && Seen(data, p) == r.log;
    }

    /** The last byte of a body: a message ends at once, chunk data are delivered with what follows. */
    method EndBody(data: string, p: nat, ghost before: HttpMachine.Parser)
      requires bodyMark.Some? && bodyMark.value < p <= |data| && errno == OK && !upgrade
      requires urlMark == fieldMark == valueMark == None
      requires (state == BodyIdentity || state == ChunkData) && contentLength == 0
      requires Abs() == before.(contentLength := 0)
      modifies `state, `calls, `bodyMark
      ensures MarksFit(p) && Abs() == BodyEnd(before)
      ensures Seen(data, p) == LogAll(old(Seen(data, p)), BodyEndEvents(before))
    {
      hide Log, LogAll, ShouldKeepAlive;
      if state == BodyIdentity {
        LogOne(Seen(data, p), MessageComplete);
        EndMessage(data, p);
      } else {
        LogNone(Seen(data, p));
        state := ChunkDataAlmostDone;
      }
    }

    method EndMessage(data: string, p: nat)
      requires bodyMark.Some? && bodyMark.value < p <= |data|
      requires urlMark == fieldMark == valueMark == None
      modifies `state, `calls, `bodyMark
      ensures bodyMark == None && Joined() == Log(old(Seen(data, p)), MessageComplete)
      ensures Abs() == old(Abs()).(state := NewMessage(old(Abs()).(state := MessageDone)))
    {
      hide Log, LogAll, ShouldKeepAlive;
      state := MessageDone;
      DeliverBody(data, p);
      state := NewMessage(Abs());
      Notify(MessageComplete);
    }

    ghost predicate AtMostOneMark(p: nat)
      reads this
    {
      && (urlMark.Some? ==> urlMark.value < p && fieldMark == valueMark == bodyMark == None)
      && (fieldMark.Some? ==> fieldMark.value < p && urlMark == valueMark == bodyMark == None)
      && (valueMark.Some? ==> valueMark.value < p && urlMark == fieldMark == bodyMark == None)
      && (bodyMark.Some? ==> bodyMark.value < p && urlMark == fieldMark == valueMark == None)
    }

    /** A field, value or URL that the last buffer left open goes on at the start of this one. */
    method SetMarks(ghost data: string)
      requires urlMark == fieldMark == valueMark == bodyMark == None
      modifies `urlMark, `fieldMark, `valueMark
      ensures MarksFit(0) && Seen(data, 0) == Joined()
    {
      if state == HeaderField {
        fieldMark := Some(0);
      } else if state == HeaderValue {
        valueMark := Some(0);
      } else if IsUrlState(state) {
        urlMark := Some(0);
      }
    }

    /** Delivers what is left marked at the end of the buffer. */
    method ClearMarks(data: string, p: nat)
      requires p <= |data| && AtMostOneMark(p)
      modifies `urlMark, `fieldMark, `valueMark, `bodyMark, `calls
      ensures urlMark == fieldMark == valueMark == bodyMark == None
      ensures Joined() == old(Seen(data, p))
    {
      hide Log, LogAll;
      if fieldMark.Some? { DeliverField(data, p); }
      if valueMark.Some? { DeliverValue(data, p); }
      if urlMark.Some? { DeliverUrl(data, p); }
      if bodyMark.Some? { DeliverBody(data, p); }
    }

    /** After an error the marked data are dropped. */
    method ClearAfterError(ghost data: string, ghost p: nat)
      requires p <= |data|
      modifies `urlMark, `fieldMark, `valueMark, `bodyMark
      ensures urlMark == fieldMark == valueMark == bodyMark == None
      ensures CutOff(old(Seen(data, p)))
    {
      hide Log, LogAll;
      ghost var kind, mark := Url, 0;
      if urlMark.Some? { kind, mark := Url, urlMark.value; }
      else if fieldMark.Some? { kind, mark := Field, fieldMark.value; }
      else if valueMark.Some? { kind, mark := FieldValue, valueMark.value; }
      else if bodyMark.Some? { kind, mark := Body, bodyMark.value; }
      ghost var bytes := if mark < p then data[mark..p] else "";
      ghost var seen := Seen(data, p);
      urlMark, fieldMark, valueMark, bodyMark := None, None, None, None;
      assert seen == Joined() || seen == Log(Joined(), Data(kind, bytes));
    }

    /** `log` is what has been delivered, plus at most one portion of data that an error cut off. */
    ghost predicate CutOff(log: seq<Event>)
      reads this
    {
      log == Joined() || exists kind, bytes :: log == Log(Joined(), Data(kind, bytes))
    }

    /** In the middle of a buffer: what is still to come will end in `whole`. */
    ghost predicate Underway(data: string, p: nat, whole: Session)
      reads this
    {
      && p <= |data| && errno == OK && !upgrade && Good(Abs())
      && (p < |data| ==> MarksFit(p))
      && (p > 0 ==> AtMostOneMark(p))
      && Run(Session(Abs(), Seen(data, p), p), data[p..]) == whole
    }

    ghost predicate Unmarked()
      reads this
    {
      urlMark == fieldMark == valueMark == bodyMark == None
    }

    /** Done with the buffer after n bytes, in the session `whole`. */
    ghost predicate Ended(n: nat, whole: Session)
      reads this
    {
      && Unmarked() && Abs() == whole.parser && n == whole.consumed
      && (errno == OK ==> Joined() == whole.log)
      && CutOff(whole.log)
    }

    /** One turn of the loop. */
    method Turn(data: string, p: nat, ghost whole: Session) returns (next: nat)
      requires p < |data| && Underway(data, p, whole)
      modifies this
      ensures errno != AssertionFailed
      ensures if errno == OK && !upgrade then p < next && Underway(data, next, whole) else Ended(next, whole)
    {
      hide Run, Log, LogAll, Step, Good, Marked;
      if state == BodyIdentity || state == ChunkData {
        ghost var s := Session(Abs(), Seen(data, p), p);
        next := TakeBody(data, p);
        CutAt(data, p, next);
        RunSplit(s, data[p..next], data[next..]);
      } else {
        next := TurnByte(data, p, whole);
      }
    }

    method TurnByte(data: string, p: nat, ghost whole: Session) returns (next: nat)
      requires p < |data| && Underway(data, p, whole) && state != BodyIdentity && state != ChunkData
      modifies this
      ensures errno != AssertionFailed
      ensures if errno == OK && !upgrade then p < next && Underway(data, next, whole) else Ended(next, whole)
    {
      hide Run, Log, LogAll, LogEvents, Step, Good, Marked;
      RunNext(Session(Abs(), Seen(data, p), p), data, p);
      ExecuteByte(data, p);
      if errno != OK {
        assert LogEvents(Seen(data, p), []) == Seen(data, p) by { NoEvents(Seen(data, p)); }
        ClearAfterError(data, p);
        return p;
      }
      next := p + 1;
      MarksAreFew(next);
      if upgrade {
        ClearMarks(data, next);
      }
    }

    lemma MarksAreFew(p: nat)
      requires p > 0 && MarksFit(p)
      ensures AtMostOneMark(p)
    {
    }

    static lemma CutAt(data: string, p: nat, next: nat)
      requires p <= next <= |data|
      ensures data[p..] == data[p..next] + data[next..]
    {
    }

    /** http_parser_execute. For every buffer the fields, the count of consumed bytes and the joined callbacks
        are those of the byte machine; after an error the data in progress may be missing from the callbacks.
        An empty buffer stands for the end of the input. */
    method Execute(data: string) returns (n: nat)
      requires Valid()
      modifies this
      ensures errno != AssertionFailed && Unmarked() && (!upgrade ==> Valid())
      ensures old(errno) != OK ==> n == 0 && Abs() == old(Abs()) && calls == old(calls)
      ensures old(errno) == OK && data == "" ==> calls == old(calls)
      ensures old(errno) == OK && data == "" ==>
        if state == Dead || state == StartReq then n == 0 && Abs() == old(Abs())
        else n == 1 && Abs() == old(Abs()).(errno := InvalidEofState)
      ensures old(errno) == OK && data != "" ==> Ended(n, Run(Session(old(Abs()), old(Joined()), 0), data))
    {
      hide Run, Log, LogAll, Step, StateGood, Marked, CutOff;
      if errno != OK {
        return 0;
      }
      if data == "" {
        if state == Dead || state == StartReq {
          return 0;
        }
        errno := InvalidEofState;
        return 1;
      }
      SetMarks(data);
      ghost var whole := Run(Session(Abs(), Joined(), 0), data);
      assert data[0..] == data;
      var p := 0;
      while p < |data|
        invariant Underway(data, p, whole) && (p == 0 ==> data != "")
      {
        p := Turn(data, p, whole);
        if errno != OK || upgrade {
          return p;
        }
      }
      FinishBuffer(data, whole);
      n := |data|;
    }

    method FinishBuffer(data: string, ghost whole: Session)
      requires Underway(data, |data|, whole) && data != ""
      modifies `urlMark, `fieldMark, `valueMark, `bodyMark, `calls
      ensures Ended(|data|, whole)
    {
      hide Run, Log, LogAll, Step, Good, Marked;
      assert data[|data|..] == "";
      RunNothing(Session(Abs(), Seen(data, |data|), |data|));
      ClearMarks(data, |data|);
    }

    /** Split invariance: fed in non-empty pieces, up to an error or an upgrade, the parser ends in the state, error
        and byte count of the whole input in one piece, and without an error with the same joined callbacks. */
    method ExecutePieces(pieces: seq<string>) returns (total: nat)
      requires Valid() && errno == OK && forall i :: 0 <= i < |pieces| ==> pieces[i] != ""
      modifies this
      ensures errno != AssertionFailed && Unmarked()
      ensures Ended(total, Run(Session(old(Abs()), old(Joined()), 0), Concat(pieces)))
    {
      hide Run, Log, LogAll, Concat, Safe;
      ghost var start := Session(Abs(), Joined(), 0);
      total := 0;
      ConcatNone(pieces[..0]);
      RunNothing(start);
      for i := 0 to |pieces|
        invariant Valid() && errno == OK
        invariant Session(Abs(), Joined(), total) == Run(start, Concat(pieces[..i]))
      {
        ghost var s := Session(Abs(), Joined(), total);
        ghost var rest := Concat(pieces[i + 1..]);
        SplitAt(start, pieces, i);
        RunShift(Session(Abs(), Joined(), 0), total, pieces[i]);
        var n := Execute(pieces[i]);
        total := total + n;
        if errno != OK || upgrade {
          RunHalted(Run(s, pieces[i]), rest);
          return;
        }
      }
      assert pieces[..|pieces|] == pieces;
    }
  }

  // ---------- logs ----------

  lemma {:induction false} LogAllAppend(log: seq<Event>, es: seq<Event>, e: Event)
    ensures LogAll(log, es + [e]) == Log(LogAll(log, es), e)
    decreases |es|
  {
    if es == [] {
      assert es + [e] == [e];
      LogOne(log, e);
    } else {
      assert (es + [e])[1..] == es[1..] + [e];
      LogAllAppend(Log(log, es[0]), es[1..], e);
    }
  }

  /** The log with the data from a mark on. */
  function Marked(log: seq<Event>, kind: Kind, data: string, mark: nat, p: nat): seq<Event>
    requires p <= |data|
  {
    if mark < p then Log(log, Data(kind, data[mark..p])) else log
  }

  lemma MarkedHere(log: seq<Event>, kind: Kind, data: string, p: nat)
    requires p <= |data|
    ensures Marked(log, kind, data, p, p) == log
  {
  }

  /** A byte of the machine causes at most two events. */
  function LogEvents(log: seq<Event>, es: seq<Event>): seq<Event> {
    if es == [] then log else if |es| == 1 then Log(log, es[0]) else Log(Log(log, es[0]), es[1])
  }

  lemma NoEvents(log: seq<Event>)
    ensures LogEvents(log, []) == log
  {
  }

  lemma LogEventsAll(log: seq<Event>, es: seq<Event>)
    requires |es| <= 2
    ensures LogEvents(log, es) == LogAll(log, es)
  {
    if |es| == 1 {
      assert es == [es[0]];
      LogOne(log, es[0]);
    } else if |es| == 2 {
      assert es == [es[0]] + [es[1]];
      LogTwo(log, es[0], es[1]);
    }
  }

  /** A marked byte joins what is pending. */
  lemma ExtendMark(log: seq<Event>, kind: Kind, data: string, mark: nat, p: nat)
    requires mark <= p < |data|
    ensures Marked(log, kind, data, mark, p + 1) == Log(Marked(log, kind, data, mark, p), Data(kind, [data[p]]))
  {
    assert data[mark..p + 1] == data[mark..p] + [data[p]];
    if mark < p {
      LogJoin(log, kind, data[mark..p], [data[p]]);
    } else {
      assert data[mark..p + 1] == [data[p]];
    }
  }

  /** Delivering the pending data is what the machine's closing event stands for. */
  lemma CloseMark(log: seq<Event>, kind: Kind, data: string, mark: nat, p: nat)
    requires mark <= p <= |data|
    ensures Log(log, Data(kind, data[mark..p])) == Log(Marked(log, kind, data, mark, p), Data(kind, ""))
  {
    if mark < p {
      LogJoin(log, kind, data[mark..p], "");
      assert data[mark..p] + "" == data[mark..p];
    } else {
      assert data[mark..p] == "";
    }
  }

  /** What the machine does on the next k bytes of a body. */
  lemma Portion(p: HttpMachine.Parser, log: seq<Event>, data: string, p0: nat, k: nat)
    requires Good(p) && !Halted(p) && (p.state == BodyIdentity || p.state == ChunkData)
    requires p0 + k <= |data| && 0 < k <= p.contentLength
    ensures var r := Run(Session(p, log, p0), data[p0..p0 + k]); var l := Marked(log, Body, data, p0, p0 + k);
      && r == (if k < p.contentLength then Session(p.(contentLength := p.contentLength - k), l, p0 + k)
               else Session(BodyEnd(p), LogAll(l, BodyEndEvents(p)), p0 + k))
      && r.parser.errno == OK && !r.parser.upgrade && Good(r.parser)
  {
    hide Step, Log, LogAll, Good, BodyEndEvents;
    BodyStates(p);
    RunBody(Session(p, log, p0), data[p0..p0 + k]);
    RunSafe(Session(p, log, p0), data[p0..p0 + k]);
  }

  /** A mark set while an earlier byte was looked at, or carried over to the start of the buffer. */
  predicate Before(mark: nat, p: nat) { mark < p || mark == p == 0 }

  // ---------- shapes of the machine's steps ----------

  function ExecChunkHeader(p: HttpMachine.Parser, ch: char): Result
    requires IsChunkHeaderState(p.state)
  {
    match p.state
    case ChunkSizeStart => ExecChunkSizeStart(p, ch)
    case ChunkSize => ExecChunkSize(p, ch)
    case ChunkParameters => ExecChunkParameters(p, ch)
    case ChunkSizeAlmostDone => ExecChunkSizeAlmostDone(p, ch)
  }

  lemma FieldByteKeeps(p: HttpMachine.Parser, c: char, ch: char)
    ensures var q := FieldByte(p, c, ch);
      q == p.(index := q.index, headerState := q.headerState, errno := q.errno)
  {
  }

  lemma ValueByteKeeps(p: HttpMachine.Parser, ch: char)
    ensures var q := ValueByte(p, ch);
      q == p.(index := q.index, headerState := q.headerState, contentLength := q.contentLength, errno := q.errno)
  {
  }

  lemma RestingStates(p: HttpMachine.Parser)
    requires Good(p)
    ensures p.state != HeadersDone && p.state != MessageDone
  {
  }

  lemma BodyStates(p: HttpMachine.Parser)
    requires Good(p) && !Halted(p) && (p.state == BodyIdentity || p.state == ChunkData)
    ensures InBody(p)
  {
  }

  lemma RunNext(s: Session, data: string, p: nat)
    requires p < |data| && !Halted(s.parser) && s.consumed == p
    ensures var r := Step(s.parser, data[p]);
      Run(s, data[p..]) == (if r.parser.errno != OK then Session(r.parser, LogEvents(s.log, r.events), p)
                            else Run(Session(r.parser, LogEvents(s.log, r.events), p + 1), data[p + 1..]))
    ensures var r := Step(s.parser, data[p]);
      r.parser.upgrade && r.parser.errno == OK ==> Run(s, data[p..]) == Session(r.parser, LogEvents(s.log, r.events), p + 1)
  {
    hide Log, LogAll, Step;
    AtMostTwoEvents(s.parser, data[p]);
    LogEventsAll(s.log, Step(s.parser, data[p]).events);
    assert data[p..][0] == data[p] && data[p..][1..] == data[p + 1..];
    var t := Advance(s, data[p]);
    assert Run(s, data[p..]) == Run(t, data[p + 1..]);
  }

  lemma AtMostTwoEvents(p: HttpMachine.Parser, ch: char)
    ensures |Step(p, ch).events| <= 2
  {
    hide Exec;
    var q := Counted(p);
    if IsHeaderState(q.state) {
      HeaderEvents(q, ch);
    } else if IsRequestLineState(q.state) {
      RequestLineEvents(q, ch);
    } else {
      BodyEvents(q, ch);
    }
  }

  lemma HeaderEvents(p: HttpMachine.Parser, ch: char)
    requires IsHeaderState(p.state)
    ensures |Exec(p, ch).events| <= 2
  {
    hide FieldByte, ValueByte, MatchNext, Token, ShouldKeepAlive, Accumulate;
  }

  lemma BodyEvents(p: HttpMachine.Parser, ch: char)
    requires !IsHeaderState(p.state) && !IsRequestLineState(p.state)
    ensures |Exec(p, ch).events| <= 2
  {
    hide ShouldKeepAlive, Accumulate, ExecUrl, ExecVersion;
  }

  lemma RequestLineEvents(p: HttpMachine.Parser, ch: char)
    requires IsRequestLineState(p.state)
    ensures |Exec(p, ch).events| <= 2
  {
    hide ParseUrlChar;
  }

  /** The count of consumed bytes only counts. */
  lemma {:induction false} RunShift(s: Session, k: nat, data: string)
    ensures Run(s.(consumed := s.consumed + k), data) == Run(s, data).(consumed := Run(s, data).consumed + k)
    decreases |data|
  {
    hide Step, LogAll;
    if data != "" && !Halted(s.parser) {
      RunShift(Advance(s, data[0]), k, data[1..]);
    }
  }

  lemma SplitAt(start: Session, pieces: seq<string>, i: nat)
    requires i < |pieces|
    ensures Run(start, Concat(pieces[..i + 1])) == Run(Run(start, Concat(pieces[..i])), pieces[i])
    ensures Run(start, Concat(pieces)) == Run(Run(start, Concat(pieces[..i + 1])), Concat(pieces[i + 1..]))
  {
    hide Run;
    assert pieces[..i + 1] == pieces[..i] + [pieces[i]];
    RunPieces(start, pieces[..i], pieces[i]);
    ConcatSplit(pieces, i + 1);
    RunSplit(start, Concat(pieces[..i + 1]), Concat(pieces[i + 1..]));
  }
}
