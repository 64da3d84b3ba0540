/** What the request parser understands of header names and values. */
module HttpHeaders {
  import opened Common
  import Decimal
  import opened HttpMachine
  import opened HttpNumbers

  /** ASCII lower case, character by character. */
  function Lowered(s: string): (r: string)
    ensures |r| == |s| && forall i :: 0 <= i < |s| ==> r[i] == ToLowerAscii(s[i])
  {
    seq(|s|, i requires 0 <= i < |s| => ToLowerAscii(s[i]))
  }

  lemma LoweredAppend(s: string, ch: char)
    ensures Lowered(s + [ch]) == Lowered(s) + [ToLowerAscii(ch)]
  {
  }

  predicate IsToken(s: string) { forall i :: 0 <= i < |s| ==> Token(s[i]) != '\0' }

  predicate IsSeparator(ch: char) { ch in "()<>@,;:\\\"/[]?={}" }

  lemma SeparatorBytes(ch: char)
    ensures IsSeparator(ch) <==>
      ch == '(' || ch == ')' || ch == '<' || ch == '>' || ch == '@' || ch == ',' || ch == ';' || ch == ':' || ch == '\\'
      || ch == '"' || ch == '/' || ch == '[' || ch == ']' || ch == '?' || ch == '=' || ch == '{' || ch == '}'
  {
    var out := "()<>@,;:\\\"/[]?={}";
    assert out[0] == '(' && out[1] == ')' && out[2] == '<' && out[3] == '>' && out[4] == '@' && out[5] == ',' && out[6] == ';'
      && out[7] == ':' && out[8] == '\\' && out[9] == '"' && out[10] == '/' && out[11] == '[' && out[12] == ']' && out[13] == '?'
      && out[14] == '=' && out[15] == '{' && out[16] == '}';
  }

  lemma MarkBytes(ch: char)
    ensures ch in "!#$%&'*+-.^_`|~" <==>
      ch == '!' || ch == '#' || ch == '$' || ch == '%' || ch == '&' || ch == '\'' || ch == '*' || ch == '+' || ch == '-'
      || ch == '.' || ch == '^' || ch == '_' || ch == '`' || ch == '|' || ch == '~'
  {
    var marks := "!#$%&'*+-.^_`|~";
    assert marks[0] == '!' && marks[1] == '#' && marks[2] == '$' && marks[3] == '%' && marks[4] == '&' && marks[5] == '\''
      && marks[6] == '*' && marks[7] == '+' && marks[8] == '-' && marks[9] == '.' && marks[10] == '^' && marks[11] == '_'
      && marks[12] == '`' && marks[13] == '|' && marks[14] == '~';
  }

  lemma TokenOfBytes(ch: char)
    ensures Token(ch) == if IsAlpha(ch) || IsNum(ch) || ch in "!#$%&'*+-.^_`|~" then ToLowerAscii(ch) else '\0'
  {
  }

  /** The tokens of section 2.2 of RFC 2616: printing bytes that are no separators, read without regard to case. */
  lemma TokenBytes(ch: char)
    ensures Token(ch) != '\0' <==> 33 <= ch as int <= 126 && !IsSeparator(ch)
    ensures Token(ch) != '\0' ==> Token(ch) == if 'A' <= ch <= 'Z' then 'a' + (ch - 'A') else ch
  {
    hide Token, IsSeparator;
    TokenOfBytes(ch);
    SeparatorBytes(ch);
    MarkBytes(ch);
  }

  predicate IsPrefix(a: string, b: string) {
    |a| <= |b| && forall i :: 0 <= i < |a| ==> a[i] == b[i]
  }

  // ---------- header names ----------

  predicate StartsKnownName(n: string) {
    || IsPrefix(n, CONNECTION) || IsPrefix(n, PROXY_CONNECTION) || IsPrefix(n, CONTENT_LENGTH)
    || IsPrefix(n, TRANSFER_ENCODING) || IsPrefix(n, UPGRADE)
  }

  predicate Partway(p: Parser, n: string, lit: string, least: nat) {
    least <= |n| < |lit| && IsPrefix(n, lit) && p.index == |n| - 1
  }

  /** The match state is exactly what the lower-cased name read so far calls for. */
  predicate Tracks(p: Parser, n: string) {
    match p.headerState
    case HGeneral => !StartsKnownName(n)
    case HC => n == "c" && p.index == 0
    case HCO => n == "co" && p.index == 1
    case HCON => n == "con" && p.index == 2
    case HMatchingConnection => Partway(p, n, CONNECTION, 4)
    case HMatchingContentLength => Partway(p, n, CONTENT_LENGTH, 4)
    case HMatchingProxyConnection => Partway(p, n, PROXY_CONNECTION, 1)
    case HMatchingTransferEncoding => Partway(p, n, TRANSFER_ENCODING, 1)
    case HMatchingUpgrade => Partway(p, n, UPGRADE, 1)
    case HConnection => n == CONNECTION || n == PROXY_CONNECTION
    case HContentLength => n == CONTENT_LENGTH
    case HTransferEncoding => n == TRANSFER_ENCODING
    case HUpgrade => n == UPGRADE
    case _ => false
  }

  lemma PrefixAppend(n: string, c: char, lit: string)
    ensures IsPrefix(n + [c], lit) <==> IsPrefix(n, lit) && |n| < |lit| && lit[|n|] == c
  {
    if IsPrefix(n + [c], lit) {
      assert (n + [c])[|n|] == c;
      forall i | 0 <= i < |n| ensures n[i] == lit[i] {
        assert (n + [c])[i] == n[i];
      }
    }
  }

  lemma PrefixesAppend(n: string, c: char)
    ensures !StartsKnownName(n) ==> !StartsKnownName(n + [c])
  {
    PrefixAppend(n, c, CONNECTION);
    PrefixAppend(n, c, PROXY_CONNECTION);
    PrefixAppend(n, c, CONTENT_LENGTH);
    PrefixAppend(n, c, TRANSFER_ENCODING);
    PrefixAppend(n, c, UPGRADE);
  }

  /** The known names start differently, or part ways at their fourth letter. */
  lemma OnlyOneName(n: string)
    requires n != ""
    ensures IsPrefix(n, PROXY_CONNECTION) ==> n[0] == 'p'
    ensures IsPrefix(n, TRANSFER_ENCODING) ==> n[0] == 't'
    ensures IsPrefix(n, UPGRADE) ==> n[0] == 'u'
    ensures IsPrefix(n, CONNECTION) ==> n[0] == 'c' && (|n| > 3 ==> n[3] == 'n')
    ensures IsPrefix(n, CONTENT_LENGTH) ==> n[0] == 'c' && (|n| > 3 ==> n[3] == 't')
  {
  }

  lemma FirstByteTracks(p: Parser, c: char)
    requires p.index == 0 && p.headerState == FirstFieldByte(c)
    ensures Tracks(p, [c])
  {
    OnlyOneName([c]);
  }

  /** One more letter of a literal that is partly matched. */
  lemma PartwayNext(p: Parser, n: string, lit: string, least: nat, c: char, done: HeaderState)
    requires n != "" && c != '\0' && Partway(p, n, lit, least)
    ensures var q := MatchNext(p, lit, c, done);
      if IsPrefix(n + [c], lit) then
        if |n| + 1 == |lit| then q.headerState == done && n + [c] == lit
        else q.headerState == p.headerState && Partway(q, n + [c], lit, least)
      else q.headerState == HGeneral
  {
    PrefixAppend(n, c, lit);
    assert IsPrefix(n + [c], lit) && |n| + 1 == |lit| ==> n + [c] == lit;
  }

  lemma NextLetterTracks(p: Parser, n: string, c: char)
    requires n in {"c", "co", "con"} && c != '\0'
    requires Tracks(p, n) && p.headerState in {HC, HCO, HCON}
    ensures Tracks(FieldByte(p, c, c), n + [c])
  {
    OnlyOneName(n + [c]);
    PrefixAppend(n, c, CONNECTION);
    PrefixAppend(n, c, CONTENT_LENGTH);
    assert (n + [c])[0] == 'c';
  }

  /** No known name is a proper prefix of another. */
  lemma BeyondName(n: string, c: char)
    requires n == CONNECTION || n == PROXY_CONNECTION || n == CONTENT_LENGTH || n == TRANSFER_ENCODING || n == UPGRADE
    ensures !StartsKnownName(n + [c])
  {
    OnlyOneName(n + [c]);
    assert (n + [c])[0] == n[0] && (n + [c])[3] == n[3];
  }

  lemma FieldByteTracks(p: Parser, n: string, c: char, ch: char)
    requires n != "" && c == Token(ch) && c != '\0' && Tracks(p, n)
    ensures Tracks(FieldByte(p, c, ch), n + [c])
  {
    hide IsPrefix, MatchNext, Token;
    assert ch != ' ' by { SpaceIsNoToken(ch); }
    OnlyOneName(n);
    OnlyOneName(n + [c]);
    assert (n + [c])[0] == n[0] && (|n| > 3 ==> (n + [c])[3] == n[3]);
    match p.headerState {
      case HC => NextLetterTracks(p, n, c);
      case HCO => NextLetterTracks(p, n, c);
      case HCON => NextLetterTracks(p, n, c);
      case HMatchingConnection => PartwayNext(p, n, CONNECTION, 4, c, HConnection);
      case HMatchingContentLength => PartwayNext(p, n, CONTENT_LENGTH, 4, c, HContentLength);
      case HMatchingProxyConnection => PartwayNext(p, n, PROXY_CONNECTION, 1, c, HConnection);
      case HMatchingTransferEncoding => PartwayNext(p, n, TRANSFER_ENCODING, 1, c, HTransferEncoding);
      case HMatchingUpgrade => PartwayNext(p, n, UPGRADE, 1, c, HUpgrade);
      case HGeneral => PrefixesAppend(n, c);
      case _ => BeyondName(n, c);
    }
  }

  lemma SpaceIsNoToken(ch: char)
    requires Token(ch) != '\0'
    ensures ch != ' '
  {
  }

  /** Only the match state and the byte count change while a name is read. */
  predicate SameButMatch(p: Parser, q: Parser, bytes: nat) {
    q == p.(nread := p.nread + bytes, index := q.index, headerState := q.headerState)
  }

  lemma FieldStep(p: Parser, ch: char)
    requires !Halted(p) && p.state == HeaderField && Token(ch) != '\0' && p.nread < HTTP_MAX_HEADER_SIZE
    ensures Step(p, ch).parser == FieldByte(p.(nread := p.nread + 1), Token(ch), ch)
  {
    hide FieldByte, Token;
  }

  predicate InName(p: Parser, done: string) {
    !Halted(p) && p.state == HeaderField && done != "" && Tracks(p, Lowered(done))
  }

  lemma NameAdvance(s: Session, done: string, ch: char)
    requires InName(s.parser, done) && Token(ch) != '\0' && s.parser.nread < HTTP_MAX_HEADER_SIZE
    ensures var q := Advance(s, ch).parser;
      SameButMatch(s.parser, q, 1) && InName(q, done + [ch])
  {
    hide Step, Exec, Tracks, FieldByte, Lowered, Log, LogAll;
    var p := s.parser.(nread := s.parser.nread + 1);
    TracksIgnoresCount(s.parser, p, Lowered(done));
    FieldStep(s.parser, ch);
    FieldByteTracks(p, Lowered(done), Token(ch), ch);
    FieldByteSame(p, Lowered(done), Token(ch), ch);
    LoweredAppend(done, ch);
  }

  lemma TracksIgnoresCount(p: Parser, q: Parser, n: string)
    requires Tracks(p, n) && p.headerState == q.headerState && p.index == q.index
    ensures Tracks(q, n)
  {
  }

  lemma FieldByteSame(p: Parser, n: string, c: char, ch: char)
    requires Tracks(p, n)
    ensures SameButMatch(p, FieldByte(p, c, ch), 0)
  {
  }

  lemma ByteByByte(done: string, more: string)
    requires more != ""
    ensures (done + [more[0]]) + more[1..] == done + more
  {
  }

  lemma {:induction false} RunName(s: Session, done: string, more: string)
    requires InName(s.parser, done) && IsToken(more)
    requires s.parser.nread + |more| <= HTTP_MAX_HEADER_SIZE
    ensures var q := Run(s, more).parser;
      SameButMatch(s.parser, q, |more|) && InName(q, done + more)
    decreases |more|
  {
    hide Step, Tracks, Advance, Token;
    if more == "" {
      assert done + more == done;
    } else {
      NameAdvance(s, done, more[0]);
      RunName(Advance(s, more[0]), done + [more[0]], more[1..]);
      ByteByByte(done, more);
    }
  }

  lemma TokenIsNoBreak(ch: char)
    requires Token(ch) != '\0'
    ensures ch != CR && ch != LF && ch != ' ' && ch != '\t' && ch != ':'
  {
  }

  lemma NameStart(s: Session, ch: char)
    requires AtHeader(s.parser)
    requires Token(ch) != '\0' && s.parser.nread < HTTP_MAX_HEADER_SIZE
    ensures var q := Advance(s, ch).parser;
      && q == s.parser.(nread := s.parser.nread + 1, state := HeaderField, index := 0, headerState := q.headerState)
      && Tracks(q, Lowered([ch]))
  {
    hide Tracks, Log, LogAll, FirstFieldByte, ExecHeadersAlmostDone;
    TokenIsNoBreak(ch);
    var p := Counted(s.parser);
    assert Step(s.parser, ch) == if p.state == HeaderFieldStart then ExecFieldStart(p, ch) else ExecLws(p, ch);
    var q := Advance(s, ch).parser;
    FirstByteTracks(q, Token(ch));
    assert Lowered([ch]) == [Token(ch)];
  }

  /** At the colon that ends a name of any length, in any header line, the parser has singled out exactly the four
      headers it interprets, compared without regard to case, and nothing else. */
  lemma HeaderRecognition(s: Session, name: string)
    requires AtHeader(s.parser)
    requires name != "" && IsToken(name) && s.parser.nread + |name| + 1 <= HTTP_MAX_HEADER_SIZE
    ensures var q := Run(s, name + ":").parser; var n := Lowered(name);
      && q.errno == OK && q.state == HeaderValueStart
      && (q.headerState == HConnection <==> n == "connection" || n == "proxy-connection")
      && (q.headerState == HContentLength <==> n == "content-length")
      && (q.headerState == HTransferEncoding <==> n == "transfer-encoding")
      && (q.headerState == HUpgrade <==> n == "upgrade")
  {
    hide Step, Tracks, Run, Advance, Lowered, IsToken;
    NameBytes(s, name);
    var u := Run(s, name);
    RunSplit(s, name, ":");
    Colon(u);
    KnownNamesDiffer(u.parser, Lowered(name));
  }

  lemma NameBytes(s: Session, name: string)
    requires AtHeader(s.parser)
    requires name != "" && IsToken(name) && s.parser.nread + |name| <= HTTP_MAX_HEADER_SIZE
    ensures var q := Run(s, name).parser;
      !Halted(q) && q.state == HeaderField && q.nread == s.parser.nread + |name| && Tracks(q, Lowered(name))
  {
    hide Step, Tracks, Run, Advance, Lowered, Token;
    NameStart(s, name[0]);
    assert name == [name[0]] + name[1..];
    RunOne(s, name[0], name[1..]);
    RunName(Advance(s, name[0]), [name[0]], name[1..]);
  }

  lemma Colon(s: Session)
    requires !Halted(s.parser) && s.parser.state == HeaderField && s.parser.nread < HTTP_MAX_HEADER_SIZE
    ensures Run(s, ":").parser == s.parser.(nread := s.parser.nread + 1, state := HeaderValueStart)
  {
    hide Run, Log, LogAll;
    RunSingle(s, ':');
    assert Step(s.parser, ':') == ExecField(Counted(s.parser), ':');
  }

  /** What may end a name: a colon, or a line end for a header without a value; any other byte is refused. */
  lemma NameEnds(s: Session, name: string, ch: char)
    requires AtHeader(s.parser) && name != "" && IsToken(name) && Token(ch) == '\0'
    requires s.parser.nread + |name| + 1 <= HTTP_MAX_HEADER_SIZE
    ensures var q := Run(s, name + [ch]).parser;
      if ch == ':' then q.errno == OK && q.state == HeaderValueStart
      else if ch == CR then q.errno == OK && q.state == HeaderAlmostDone
      else if ch == LF then q.errno == OK && q.state == HeaderFieldStart
      else q.errno == InvalidHeaderToken
  {
    hide Step, Tracks, Run, Lowered, IsToken, Log, LogAll, Token;
    NameBytes(s, name);
    var u := Run(s, name);
    RunSplit(s, name, [ch]);
    RunSingle(u, ch);
    assert Step(u.parser, ch) == ExecField(Counted(u.parser), ch) by { FieldStateStep(u.parser, ch); }
  }

  lemma FieldStateStep(p: Parser, ch: char)
    requires !Halted(p) && p.state == HeaderField && p.nread < HTTP_MAX_HEADER_SIZE
    ensures Step(p, ch) == ExecField(Counted(p), ch)
  {
    hide Token, FieldByte;
  }

  /** A header byte beyond the limit is refused, in whatever header it comes. */
  lemma BeyondLimit(s: Session, t: string, more: string)
    requires more != "" && var u := Run(s, t).parser; !Halted(u) && ParsingHeader(u.state) && u.nread == HTTP_MAX_HEADER_SIZE
    ensures var q := Run(s, t + more); q.parser.errno == HeaderOverflow && q.consumed == Run(s, t).consumed && q.log == Run(s, t).log
  {
    hide Exec;
    var u := Run(s, t);
    LogNone(u.log);
    RunSplit(s, t, more);
    assert more == [more[0]] + more[1..];
    RunOne(u, more[0], more[1..]);
    RunHalted(Advance(u, more[0]), more[1..]);
  }

  /** So a value that does not end within the limit is refused. */
  lemma EndlessValue(s: Session, h: HeaderState, done: string, more: string)
    requires InValue(s.parser, h, done) && NoLineBreak(more) && s.parser.nread <= HTTP_MAX_HEADER_SIZE
    requires s.parser.nread + |more| > 80 * 1024
    ensures var q := Run(s, more); q.parser.errno == HeaderOverflow
  {
    hide Run, TracksValue;
    var k := HTTP_MAX_HEADER_SIZE - s.parser.nread;
    RunValueBytes(s, h, done, more[..k]);
    assert more == more[..k] + more[k..];
    BeyondLimit(s, more[..k], more[k..]);
  }

  lemma KnownNamesDiffer(p: Parser, n: string)
    requires n != "" && Tracks(p, n)
    ensures p.headerState == HConnection <==> n == CONNECTION || n == PROXY_CONNECTION
    ensures p.headerState == HContentLength <==> n == CONTENT_LENGTH
    ensures p.headerState == HTransferEncoding <==> n == TRANSFER_ENCODING
    ensures p.headerState == HUpgrade <==> n == UPGRADE
  {
    OnlyOneName(n);
  }

  // ---------- values that are compared with words ----------

  /** The word in any case, followed only by spaces. */
  predicate IsWordValue(v: string, word: string) {
    |v| >= |word| && Lowered(v[..|word|]) == word && forall i :: |word| <= i < |v| ==> v[i] == ' '
  }

  /** What has been read of a value is not the word, and cannot become it. */
  predicate Misses(v: string, word: string) {
    !IsWordValue(v, word) && !IsPrefix(Lowered(v), word)
  }

  /** What has been read misses every word of the header that the match state h behind its colon stands for. */
  predicate MissesAll(v: string, h: HeaderState) {
    && (h == HTransferEncoding ==> Misses(v, CHUNKED))
    && (h == HConnection ==> Misses(v, KEEP_ALIVE) && Misses(v, CLOSE))
  }

  /** The match state is exactly what the value read so far calls for. */
  predicate TracksValue(p: Parser, h: HeaderState, v: string) {
    match p.headerState
    case HMatchingChunked => h == HTransferEncoding && Partway(p, Lowered(v), CHUNKED, 1)
    case HMatchingKeepAlive => h == HConnection && Partway(p, Lowered(v), KEEP_ALIVE, 1)
    case HMatchingClose => h == HConnection && Partway(p, Lowered(v), CLOSE, 1)
    case HChunked => h == HTransferEncoding && IsWordValue(v, CHUNKED)
    case HKeepAlive => h == HConnection && IsWordValue(v, KEEP_ALIVE)
    case HClose => h == HConnection && IsWordValue(v, CLOSE)
    case HGeneral => MissesAll(v, h)
    case _ => false
  }

  /** Only a carriage return could be taken for a dash. */
  lemma LowerMatches(ch: char, c: char)
    requires 'a' <= c <= 'z' || (c == '-' && ch != CR)
    ensures Lower(ch) == c <==> ToLowerAscii(ch) == c
  {
  }

  lemma WordAppend(v: string, ch: char, word: string)
    requires word != "" && ' ' !in word
    ensures IsWordValue(v + [ch], word) <==>
      (IsWordValue(v, word) && ch == ' ') || (|v| + 1 == |word| && IsPrefix(Lowered(v + [ch]), word))
    ensures IsPrefix(Lowered(v + [ch]), word) <==> IsPrefix(Lowered(v), word) && |v| < |word| && ToLowerAscii(ch) == word[|v|]
  {
    var w := v + [ch];
    LoweredAppend(v, ch);
    PrefixAppend(Lowered(v), ToLowerAscii(ch), word);
    if |v| >= |word| {
      assert w[..|word|] == v[..|word|];
      assert w[|v|] == ch;
      assert forall i :: |word| <= i < |v| ==> w[i] == v[i];
    } else if |w| == |word| {
      assert w[..|word|] == w;
    }
  }

  /** A value that is on its way to a word starts with its first letter. */
  lemma WordStarts(v: string, word: string)
    requires v != "" && word != ""
    ensures !Misses(v, word) ==> ToLowerAscii(v[0]) == word[0]
  {
    if IsWordValue(v, word) {
      assert Lowered(v[..|word|])[0] == ToLowerAscii(v[..|word|][0]);
    }
  }

  lemma MissesStays(v: string, ch: char, word: string)
    requires v != "" && word != "" && ' ' !in word && Misses(v, word)
    ensures Misses(v + [ch], word)
  {
    WordAppend(v, ch, word);
  }

  /** Words with different first letters exclude each other. */
  lemma OtherMisses(v: string, ch: char, word: string, other: string)
    requires v != "" && word != "" && other != "" && word[0] != other[0] && !Misses(v, word)
    ensures Misses(v + [ch], other)
  {
    hide Misses;
    WordStarts(v, word);
    WordStarts(v + [ch], other);
  }

  /** One more byte of a value whose first bytes match a word. */
  lemma MatchTracks(p: Parser, v: string, ch: char, word: string, done: HeaderState)
    requires v != "" && ch != CR && Partway(p, Lowered(v), word, 1) && ' ' !in word
    requires forall i :: 0 <= i < |word| ==> 'a' <= word[i] <= 'z' || word[i] == '-'
    ensures var q := MatchNext(p, word, Lower(ch), done); var w := v + [ch];
      if IsWordValue(w, word) then q.headerState == done
      else if IsPrefix(Lowered(w), word) then q.headerState == p.headerState && Partway(q, Lowered(w), word, 1)
      else q.headerState == HGeneral && Misses(w, word)
    ensures !Misses(v, word)
  {
    WordAppend(v, ch, word);
    LowerMatches(ch, word[|v|]);
    LoweredAppend(v, ch);
  }

  /** One more byte of a value that has been the word so far. */
  lemma SpaceTracks(v: string, ch: char, word: string)
    requires v != "" && word != "" && ' ' !in word && IsWordValue(v, word)
    ensures if ch == ' ' then IsWordValue(v + [ch], word) else Misses(v + [ch], word)
    ensures !Misses(v, word)
  {
    WordAppend(v, ch, word);
  }

  lemma ValueByteSame(p: Parser, h: HeaderState, v: string, ch: char)
    requires p.errno == OK && TracksValue(p, h, v)
    ensures SameButMatch(p, ValueByte(p, ch), 0)
  {
    hide IsWordValue, MissesAll, Partway, Lower;
  }

  lemma WordsAreLetters()
    ensures forall word :: word in {CHUNKED, KEEP_ALIVE, CLOSE} ==>
      ' ' !in word && |word| > 1 && forall i :: 0 <= i < |word| ==> 'a' <= word[i] <= 'z' || word[i] == '-'
  {
  }

  lemma ValueByteTracks(p: Parser, h: HeaderState, v: string, ch: char)
    requires v != "" && ch != CR && p.errno == OK && TracksValue(p, h, v)
    ensures TracksValue(ValueByte(p, ch), h, v + [ch])
  {
    hide IsWordValue, Misses, IsPrefix, MatchNext, Lower, Lowered, Partway;
    WordsAreLetters();
    match p.headerState
    case HMatchingChunked => MatchTracks(p, v, ch, CHUNKED, HChunked);
    case HMatchingKeepAlive =>
      MatchTracks(p, v, ch, KEEP_ALIVE, HKeepAlive);
      OtherMisses(v, ch, KEEP_ALIVE, CLOSE);
    case HMatchingClose =>
      MatchTracks(p, v, ch, CLOSE, HClose);
      OtherMisses(v, ch, CLOSE, KEEP_ALIVE);
    case HChunked => SpaceTracks(v, ch, CHUNKED);
    case HKeepAlive =>
      SpaceTracks(v, ch, KEEP_ALIVE);
      OtherMisses(v, ch, KEEP_ALIVE, CLOSE);
    case HClose =>
      SpaceTracks(v, ch, CLOSE);
      OtherMisses(v, ch, CLOSE, KEEP_ALIVE);
    case HGeneral =>
      if h == HTransferEncoding {
        MissesStays(v, ch, CHUNKED);
      } else if h == HConnection {
        MissesStays(v, ch, KEEP_ALIVE);
        MissesStays(v, ch, CLOSE);
      }
  }

  lemma ValueStep(p: Parser, ch: char)
    requires !Halted(p) && p.state == HeaderValue && ch != CR && ch != LF && p.nread < HTTP_MAX_HEADER_SIZE
    ensures Step(p, ch).parser == ValueByte(p.(nread := p.nread + 1), ch)
  {
    hide ValueByte;
  }

  predicate InValue(p: Parser, h: HeaderState, done: string) {
    !Halted(p) && p.state == HeaderValue && done != "" && TracksValue(p, h, done)
  }

  lemma ValueAdvance(s: Session, h: HeaderState, done: string, ch: char)
    requires InValue(s.parser, h, done) && ch != CR && ch != LF && s.parser.nread < HTTP_MAX_HEADER_SIZE
    ensures var q := Advance(s, ch).parser; SameButMatch(s.parser, q, 1) && InValue(q, h, done + [ch])
  {
    hide Step, Log, LogAll, MissesAll, IsWordValue, IsPrefix, ValueByte;
    ValueStep(s.parser, ch);
    ValueByteTracks(s.parser.(nread := s.parser.nread + 1), h, done, ch);
    ValueByteSame(s.parser.(nread := s.parser.nread + 1), h, done, ch);
  }

  lemma {:induction false} RunValueBytes(s: Session, h: HeaderState, done: string, more: string)
    requires InValue(s.parser, h, done) && NoLineBreak(more)
    requires s.parser.nread + |more| <= HTTP_MAX_HEADER_SIZE
    ensures var q := Run(s, more).parser; SameButMatch(s.parser, q, |more|) && InValue(q, h, done + more)
    decreases |more|
  {
    hide Step, TracksValue, Advance;
    if more == "" {
      assert done + more == done;
    } else {
      ValueAdvance(s, h, done, more[0]);
      RunValueBytes(Advance(s, more[0]), h, done + [more[0]], more[1..]);
      ByteByByte(done, more);
    }
  }

  predicate IsBlank(w: string) { forall i :: 0 <= i < |w| ==> w[i] == ' ' || w[i] == '\t' }

  lemma {:induction false} RunBlanks(s: Session, w: string)
    requires !Halted(s.parser) && s.parser.state == HeaderValueStart && IsBlank(w)
    requires s.parser.nread + |w| <= HTTP_MAX_HEADER_SIZE
    ensures Run(s, w).parser == s.parser.(nread := s.parser.nread + |w|)
    decreases |w|
  {
    if w != "" {
      RunBlanks(Advance(s, w[0]), w[1..]);
    }
  }

  lemma FirstOfWord(ch: char, word: string)
    requires |word| > 1 && 'a' <= word[0] <= 'z'
    ensures Lower(ch) == word[0] <==> IsPrefix(Lowered([ch]), word)
    ensures !IsWordValue([ch], word)
  {
    LowerMatches(ch, word[0]);
    assert Lowered([ch]) == [ToLowerAscii(ch)];
  }

  /** The flags behind the first byte of a value: any value of an Upgrade header sets its flag. */
  function FlagsInValue(p: Parser): Flags { if p.headerState == HUpgrade then p.flags.(upgrade := true) else p.flags }

  lemma ValueStart(s: Session, ch: char)
    requires !Halted(s.parser) && s.parser.state == HeaderValueStart && s.parser.headerState != HContentLength
    requires ch != CR && ch != LF && ch != ' ' && ch != '\t' && s.parser.nread < HTTP_MAX_HEADER_SIZE
    ensures var q := Advance(s, ch).parser;
      && q == s.parser.(nread := s.parser.nread + 1, state := HeaderValue, index := 0, headerState := q.headerState,
                        flags := FlagsInValue(s.parser))
      && TracksValue(q, s.parser.headerState, [ch])
  {
    hide Step, Log, LogAll, Lower, IsPrefix, IsWordValue;
    ValueStartStep(s.parser, ch);
    FirstOfWord(ch, CHUNKED);
    FirstOfWord(ch, KEEP_ALIVE);
    FirstOfWord(ch, CLOSE);
  }

  /** The flags behind a value: the words set theirs at its end. */
  function FlagsBehindValue(p: Parser): Flags {
    match p.headerState
    case HChunked => p.flags.(chunked := true)
    case HKeepAlive => p.flags.(keepAlive := true)
    case HClose => p.flags.(close := true)
    case _ => p.flags
  }

  lemma EndOfValue(s: Session)
    requires !Halted(s.parser) && s.parser.state == HeaderValue && s.parser.nread + 2 <= HTTP_MAX_HEADER_SIZE
    ensures var q := Run(s, "\r\n").parser;
      q.errno == OK && q.state == HeaderValueLws && q.flags == FlagsBehindValue(s.parser)
  {
    hide Run, Step, Log, LogAll;
    ValueReturnStep(s.parser);
    var t := Advance(s, '\r').parser;
    AlmostDoneStep(t);
    RunTwo(s, '\r', '\n');
  }

  lemma ValueReturnStep(p: Parser)
    requires !Halted(p) && p.state == HeaderValue && p.nread < HTTP_MAX_HEADER_SIZE
    ensures Step(p, '\r').parser == p.(nread := p.nread + 1, state := HeaderAlmostDone)
  {
    hide ValueByte;
    assert Step(p, '\r') == ExecValue(Counted(p), '\r');
  }

  lemma AlmostDoneStep(p: Parser)
    requires !Halted(p) && p.state == HeaderAlmostDone && p.nread < HTTP_MAX_HEADER_SIZE
    ensures Step(p, '\n').parser == p.(nread := p.nread + 1, state := HeaderValueLws, flags := FlagsBehindValue(p))
  {
    assert Step(p, '\n') == ExecAlmostDone(Counted(p), '\n');
  }

  /** A line feed alone ends a value too. */
  lemma EndOfValueByFeed(s: Session)
    requires !Halted(s.parser) && s.parser.state == HeaderValue && s.parser.nread < HTTP_MAX_HEADER_SIZE
    ensures var q := Advance(s, '\n').parser;
      q.errno == OK && q.state == HeaderValueLws && q.flags == FlagsBehindValue(s.parser)
  {
    hide Log, LogAll, ValueByte;
    assert Step(s.parser, '\n') == ExecValue(Counted(s.parser), '\n');
  }

  /** An empty value has no meaning; the two line ends differ in the state behind it. */
  lemma EmptyValue(s: Session, end: string)
    requires !Halted(s.parser) && s.parser.state == HeaderValueStart && s.parser.nread + |end| <= HTTP_MAX_HEADER_SIZE
    requires end == "\r\n" || end == "\n"
    ensures var q := Run(s, end).parser;
      && q.errno == OK && q.state == (if end == "\n" then HeaderFieldStart else HeaderValueLws)
      && q.flags == s.parser.flags
  {
    hide Log, LogAll, Step, Run;
    ValueStartStep(s.parser, end[0]);
    if end == "\n" {
      RunSingle(s, '\n');
    } else {
      var t := Advance(s, '\r').parser;
      AlmostDoneStep(t);
      RunTwo(s, '\r', '\n');
    }
  }

  /** What an unfolded value of the header with match state h comes to. */
  function FlagsOf(before: Flags, h: HeaderState, v: string): Flags {
    Flags(before.chunked || (h == HTransferEncoding && IsWordValue(v, "chunked")),
          before.keepAlive || (h == HConnection && IsWordValue(v, "keep-alive")),
          before.close || (h == HConnection && IsWordValue(v, "close")),
          before.trailing,
          before.upgrade || (h == HUpgrade && v != ""))
  }

  /** An unfolded value sets exactly the flags it should: a Transfer-Encoding that for chunked bodies when it is
      "chunked", a Connection its own for "keep-alive" and "close", in any case and followed by spaces only, and an
      Upgrade its own unless it is empty. */
  lemma ValueRecognition(s: Session, w: string, v: string, end: string)
    requires !Halted(s.parser) && s.parser.state == HeaderValueStart && s.parser.headerState != HContentLength
    requires IsBlank(w) && (v != "" ==> v[0] != ' ' && v[0] != '\t') && NoLineBreak(v)
    requires end == "\r\n" || end == "\n"
    requires s.parser.nread + |w| + |v| + |end| <= HTTP_MAX_HEADER_SIZE
    ensures var q := Run(s, w + v + end).parser;
      && q.errno == OK && q.state == (if v == "" && end == "\n" then HeaderFieldStart else HeaderValueLws)
      && q.flags == FlagsOf(s.parser.flags, s.parser.headerState, v)
  {
    hide Step, Run, Advance, IsBlank, NoLineBreak, FlagsOf;
    RunBlanks(s, w);
    var a := Run(s, w);
    RunSplit(s, w + v, end);
    RunSplit(s, w, v);
    if v == "" {
      RunNothing(a);
      EmptyValue(a, end);
      NoFlags(s.parser.flags, s.parser.headerState);
    } else {
      RunValueText(a, v);
      var b := Run(a, v);
      FlagsAgree(a.parser, b.parser, v);
      if end == "\n" {
        EndOfValueByFeed(b);
        RunSingle(b, '\n');
      } else {
        EndOfValue(b);
      }
    }
  }

  lemma NoFlags(before: Flags, h: HeaderState)
    ensures FlagsOf(before, h, "") == before
  {
  }

  lemma FlagsAgree(p: Parser, q: Parser, v: string)
    requires v != "" && TracksValue(q, p.headerState, v) && q.flags == FlagsInValue(p)
    ensures FlagsBehindValue(q) == FlagsOf(p.flags, p.headerState, v)
  {
    OneWord(v);
  }

  /** A value is at most one of the two words of a connection. */
  lemma OneWord(v: string)
    requires v != ""
    ensures !(IsWordValue(v, KEEP_ALIVE) && IsWordValue(v, CLOSE))
    ensures IsWordValue(v, KEEP_ALIVE) ==> !IsPrefix(Lowered(v), CLOSE)
    ensures IsWordValue(v, CLOSE) ==> !IsPrefix(Lowered(v), KEEP_ALIVE)
  {
    WordStarts(v, KEEP_ALIVE);
    WordStarts(v, CLOSE);
  }

  lemma RunValueText(s: Session, v: string)
    requires !Halted(s.parser) && s.parser.state == HeaderValueStart && s.parser.headerState != HContentLength
    requires v != "" && v[0] != ' ' && v[0] != '\t' && NoLineBreak(v) && s.parser.nread + |v| <= HTTP_MAX_HEADER_SIZE
    ensures var q := Run(s, v).parser;
      && !Halted(q) && q.state == HeaderValue && q.nread == s.parser.nread + |v| && q.flags == FlagsInValue(s.parser)
      && TracksValue(q, s.parser.headerState, v)
  {
    hide Step, Advance, Run, TracksValue;
    ValueStart(s, v[0]);
    assert v == [v[0]] + v[1..];
    RunOne(s, v[0], v[1..]);
    RunValueBytes(Advance(s, v[0]), s.parser.headerState, [v[0]], v[1..]);
  }

  // ---------- Content-Length ----------

  /** While a Content-Length value is read without an error. */
  predicate ReadingLength(p: Parser) {
    !Halted(p) && p.state == HeaderValue && p.headerState == HContentLength
  }

  /** One more digit behind digits of the value u. */
  lemma DigitStep(p: Parser, u: nat, ch: char)
    requires ReadingLength(p) && p.contentLength == u % WORD && Decimal.IsDigit(ch) && p.nread < HTTP_MAX_HEADER_SIZE
    ensures var q := Step(p, ch).parser; var v := u * 10 + Digit(ch);
      if Passes(u, v) then q == p.(nread := p.nread + 1, contentLength := v % WORD)
      else q.errno == InvalidContentLength
  {
    hide Exec, Accumulate;
    ValueStep(p, ch);
    AccumulatePasses(u, 10, Digit(ch));
  }

  /** The value of a digit string, split at its k-th digit. */
  lemma DigitValueNext(done: string, more: string)
    requires more != "" && Decimal.AllDigits(done) && Decimal.AllDigits(more)
    ensures Decimal.AllDigits(done + [more[0]])
    ensures done + [more[0]] + more[1..] == done + more
    ensures Decimal.Value(done + [more[0]]) == 10 * Decimal.Value(done) + Digit(more[0])
    ensures Decimal.Value(done + [more[0]]) <= Decimal.Value(done + more)
  {
    var next := done + [more[0]];
    assert next[..|done|] == done && next[|done|] == more[0];
    assert (done + more)[..|next|] == next;
    Decimal.ValueOfPrefix(done + more, |next|);
  }

  lemma ValueOfDigit(ch: char)
    requires Decimal.IsDigit(ch)
    ensures Decimal.Value([ch]) == Digit(ch) < WORD
  {
    assert [ch][..0] == [];
  }

  lemma FirstLengthDigit(s: Session, ch: char)
    requires !Halted(s.parser) && s.parser.state == HeaderValueStart && s.parser.headerState == HContentLength
    requires Decimal.IsDigit(ch) && s.parser.nread < HTTP_MAX_HEADER_SIZE
    ensures var q := Advance(s, ch).parser;
      ReadingLength(q) && q.contentLength == Decimal.Value([ch]) % WORD && q.nread == s.parser.nread + 1
  {
    hide Log, LogAll, Step, Decimal.Value;
    ValueOfDigit(ch);
    ValueStartStep(s.parser, ch);
  }

  lemma ValueStartStep(p: Parser, ch: char)
    requires !Halted(p) && p.state == HeaderValueStart && p.nread < HTTP_MAX_HEADER_SIZE
    ensures Step(p, ch) == ExecValueStart(p.(nread := p.nread + 1), ch)
  {
    hide ExecValueStart;
  }

  /** Every digit passes the overflow test, given the digits before it. */
  predicate EachPasses(digits: string)
    requires Decimal.AllDigits(digits)
  {
    forall k :: 1 <= k < |digits| ==> Passes(Decimal.Value(digits[..k]), Decimal.Value(digits[..k + 1]))
  }

  lemma EachPassesNext(digits: string)
    requires |digits| > 1 && Decimal.AllDigits(digits)
    ensures var init := digits[..|digits| - 1];
      EachPasses(digits) <==> EachPasses(init) && Passes(Decimal.Value(init), Decimal.Value(digits))
  {
    hide Passes, Decimal.Value;
    var n := |digits| - 1;
    var init := digits[..n];
    assert digits[..n + 1] == digits;
    assert forall k :: 0 <= k <= n ==> init[..k] == digits[..k];
    if EachPasses(init) && Passes(Decimal.Value(init), Decimal.Value(digits)) {
      forall k | 1 <= k < |digits| ensures Passes(Decimal.Value(digits[..k]), Decimal.Value(digits[..k + 1])) {
        if k < n {
          assert Passes(Decimal.Value(init[..k]), Decimal.Value(init[..k + 1]));
        }
      }
    }
    if EachPasses(digits) {
      assert Passes(Decimal.Value(digits[..n]), Decimal.Value(digits[..n + 1]));
      forall k | 1 <= k < n ensures Passes(Decimal.Value(init[..k]), Decimal.Value(init[..k + 1])) {
        assert Passes(Decimal.Value(digits[..k]), Decimal.Value(digits[..k + 1]));
      }
    }
  }

  /** Digits, and spaces anywhere among them, which the parser skips. */
  predicate IsLengthText(v: string) { forall i :: 0 <= i < |v| ==> Decimal.IsDigit(v[i]) || v[i] == ' ' }

  predicate IsLength(v: string) { v != "" && Decimal.IsDigit(v[0]) && IsLengthText(v) }

  /** The digits alone. */
  function Squeezed(v: string): (r: string)
    requires IsLengthText(v)
    ensures Decimal.AllDigits(r) && (IsLength(v) ==> r != "")
  {
    if v == "" then "" else Squeezed(v[..|v| - 1]) + (if v[|v| - 1] == ' ' then "" else [v[|v| - 1]])
  }

  lemma {:induction false} SqueezedDigits(v: string)
    requires Decimal.AllDigits(v)
    ensures Squeezed(v) == v
  {
    if v != "" {
      SqueezedDigits(v[..|v| - 1]);
    }
  }

  lemma SqueezedNext(v: string)
    requires |v| > 1 && IsLength(v)
    ensures var n := |v| - 1; var init := v[..n];
      && IsLength(init)
      && (v[n] == ' ' ==> Squeezed(v) == Squeezed(init))
      && (v[n] != ' ' ==> Decimal.IsDigit(v[n]) && |Squeezed(v)| > 1 && Squeezed(v)[..|Squeezed(v)| - 1] == Squeezed(init)
                          && Squeezed(v)[|Squeezed(v)| - 1] == v[n])
  {
  }

  /** The text is a length, and every digit passes the overflow test. */
  predicate Accepted(v: string) { IsLength(v) && EachPasses(Squeezed(v)) }

  lemma AcceptedNext(v: string)
    requires |v| > 1
    ensures var n := |v| - 1; var init := v[..n];
      if !Accepted(init) then !Accepted(v)
      else if v[n] == ' ' then Accepted(v) && Squeezed(v) == Squeezed(init)
      else if !Decimal.IsDigit(v[n]) then !Accepted(v)
      else
        var u := Decimal.Value(Squeezed(init));
        Accepted(v) == Passes(u, u * 10 + Digit(v[n])) && (Accepted(v) ==> Decimal.Value(Squeezed(v)) == u * 10 + Digit(v[n]))
  {
    hide EachPasses, Passes, Decimal.Value, Squeezed;
    var n := |v| - 1;
    var init := v[..n];
    assert IsLength(v) <==> IsLength(init) && (v[n] == ' ' || Decimal.IsDigit(v[n]));
    if IsLength(v) {
      SqueezedNext(v);
      if v[n] != ' ' {
        EachPassesNext(Squeezed(v));
        LastDigit(Squeezed(v));
      }
    }
  }

  lemma LengthByte(p: Parser, ch: char)
    requires ReadingLength(p) && p.nread < HTTP_MAX_HEADER_SIZE && ch != CR && ch != LF && !Decimal.IsDigit(ch)
    ensures if ch == ' ' then Step(p, ch).parser == p.(nread := p.nread + 1) else Step(p, ch).parser.errno == InvalidContentLength
  {
    hide Step;
    ValueStep(p, ch);
  }

  lemma NoLengthStart(p: Parser, ch: char)
    requires !Halted(p) && p.state == HeaderValueStart && p.headerState == HContentLength && p.nread < HTTP_MAX_HEADER_SIZE
    requires ch != CR && ch != LF && ch != ' ' && ch != '\t' && !Decimal.IsDigit(ch)
    ensures Step(p, ch).parser.errno == InvalidContentLength
  {
    hide Step;
    ValueStartStep(p, ch);
  }

  /**
   * Any unfolded value is accepted exactly when it is digits with spaces among them, starting with a digit, and
   * each digit passes the overflow test; it is then read as the number of its digits modulo 2^64.
   */
  lemma {:induction false} ContentLengthRead(s: Session, v: string)
    requires !Halted(s.parser) && s.parser.state == HeaderValueStart && s.parser.headerState == HContentLength
    requires v != "" && v[0] != ' ' && v[0] != '\t' && NoLineBreak(v) && s.parser.nread + |v| <= HTTP_MAX_HEADER_SIZE
    ensures var q := Run(s, v).parser;
      if Accepted(v)
      then ReadingLength(q) && q.contentLength == Decimal.Value(Squeezed(v)) % WORD && q.nread == s.parser.nread + |v|
      else q.errno == InvalidContentLength
    decreases |v|
  {
    hide Step, Run, Log, LogAll, EachPasses, Passes, Decimal.Value, Squeezed;
    var n := |v| - 1;
    var ch := v[n];
    if n == 0 {
      assert v == [ch];
      RunSingle(s, ch);
      OneByteAccepted(v);
      if Decimal.IsDigit(ch) {
        FirstLengthDigit(s, ch);
      } else {
        NoLengthStart(s.parser, ch);
      }
    } else {
      var init := v[..n];
      assert v == init + [ch];
      ContentLengthRead(s, init);
      RunSplit(s, init, [ch]);
      AcceptedNext(v);
      var t := Run(s, init);
      if Accepted(init) {
        RunSingle(t, ch);
        if Decimal.IsDigit(ch) {
          DigitStep(t.parser, Decimal.Value(Squeezed(init)), ch);
        } else {
          LengthByte(t.parser, ch);
        }
      } else {
        RunHalted(t, [ch]);
      }
    }
  }

  lemma OneByteAccepted(v: string)
    requires |v| == 1
    ensures Accepted(v) <==> Decimal.IsDigit(v[0])
    ensures Accepted(v) ==> Squeezed(v) == v
  {
    if Decimal.IsDigit(v[0]) {
      SqueezedDigits(v);
      OneDigitPasses(v);
    }
  }

  lemma OneDigitPasses(digits: string)
    requires |digits| == 1 && Decimal.AllDigits(digits)
    ensures EachPasses(digits)
  {
  }

  lemma LastDigit(digits: string)
    requires digits != "" && Decimal.AllDigits(digits)
    ensures var n := |digits| - 1; Decimal.Value(digits) == Decimal.Value(digits[..n]) * 10 + Digit(digits[n])
  {
  }

  /** Of digit strings whose value without the last digit is below 2^64 - 1, only the last digit can fail. */
  lemma {:induction false} LastDigitDecides(digits: string)
    requires digits != "" && Decimal.AllDigits(digits) && Decimal.Value(digits) / 10 < ULLONG_MAX
    ensures var v := Decimal.Value(digits); EachPasses(digits) <==> v % WORD >= v / 10 && v % WORD != ULLONG_MAX
    decreases |digits|
  {
    hide EachPasses, Passes, Decimal.Value;
    var n := |digits| - 1;
    var init := digits[..n];
    LastDigit(digits);
    if n == 0 {
      OneDigitPasses(digits);
      NoDigits(init);
      SmallPasses(0, Decimal.Value(digits));
    } else {
      EachPassesNext(digits);
      AllSmallPass(init);
      LastStepPasses(Decimal.Value(init), Decimal.Value(digits), 10);
    }
  }

  lemma NoDigits(s: string)
    requires s == ""
    ensures Decimal.Value(s) == 0
  {
  }

  lemma {:induction false} AllSmallPass(digits: string)
    requires Decimal.AllDigits(digits) && Decimal.Value(digits) < ULLONG_MAX
    ensures EachPasses(digits)
  {
    hide Passes, Decimal.Value;
    forall k | 1 <= k < |digits| ensures Passes(Decimal.Value(digits[..k]), Decimal.Value(digits[..k + 1])) {
      var longer := digits[..k + 1];
      assert longer[..k] == digits[..k];
      Decimal.ValueOfPrefix(longer, k);
      Decimal.ValueOfPrefix(digits, k + 1);
      SmallPasses(Decimal.Value(digits[..k]), Decimal.Value(longer));
    }
  }

  /** A length is taken for the number of its digits exactly when that is below 2^64 - 1. */
  lemma ContentLengthExact(s: Session, v: string)
    requires !Halted(s.parser) && s.parser.state == HeaderValueStart && s.parser.headerState == HContentLength
    requires IsLength(v) && s.parser.nread + |v| <= HTTP_MAX_HEADER_SIZE
    ensures var q := Run(s, v).parser;
      q.errno == OK && q.contentLength == Decimal.Value(Squeezed(v)) <==> Decimal.Value(Squeezed(v)) < ULLONG_MAX
  {
    hide Run, EachPasses, Decimal.Value, Squeezed;
    ContentLengthRead(s, v);
    var digits := Squeezed(v);
    var n := Decimal.Value(digits);
    if n < ULLONG_MAX {
      AllSmallPass(digits);
      SmallPasses(n, n);
    } else if n == ULLONG_MAX {
      LastDigitDecides(digits);
    }
  }

  /**
   * When a larger number is refused, and when it is misread: a value v whose quotient by ten is below 2^64 - 1 is
   * refused exactly when v modulo 2^64 is below that quotient or is 2^64 - 1, and read as v modulo 2^64 otherwise.
   */
  lemma OverflowTest(s: Session, text: string)
    requires !Halted(s.parser) && s.parser.state == HeaderValueStart && s.parser.headerState == HContentLength
    requires IsLength(text) && s.parser.nread + |text| <= HTTP_MAX_HEADER_SIZE
    requires Decimal.Value(Squeezed(text)) / 10 < ULLONG_MAX
    ensures var q := Run(s, text).parser; var v := Decimal.Value(Squeezed(text));
      && (q.errno != OK <==> v % WORD < v / 10 || v % WORD == ULLONG_MAX)
      && (q.errno == OK ==> q.contentLength == v % WORD)
  {
    hide Run, EachPasses, Decimal.Value, Squeezed;
    ContentLengthRead(s, text);
    LastDigitDecides(Squeezed(text));
  }

  lemma {:induction false} ZerosBehind(s: string, zeros: string)
    requires Decimal.AllDigits(s) && forall i :: 0 <= i < |zeros| ==> zeros[i] == '0'
    ensures Decimal.Value(s + zeros) == Decimal.Value(s) * Decimal.Pow10(|zeros|)
    decreases |zeros|
  {
    hide Decimal.Value;
    if zeros == "" {
      assert s + zeros == s;
    } else {
      var k := |zeros| - 1;
      ZerosBehind(s, zeros[..k]);
      assert (s + zeros)[..|s| + k] == s + zeros[..k];
      LastDigit(s + zeros);
      TenTimes(Decimal.Value(s), Decimal.Pow10(k));
    }
  }

  lemma TenTimes(a: nat, b: nat)
    ensures a * (10 * b) == a * b * 10
  {
  }

  const ZEROS := "0000000000000000000"

  lemma NineteenZeros(digit: char)
    requires Decimal.IsDigit(digit)
    ensures Decimal.Value([digit] + ZEROS) == Digit(digit) * 10_000_000_000_000_000_000
  {
    ValueOfDigit(digit);
    ZerosBehind([digit], ZEROS);
    Decimal.Pow10Of19();
  }

  lemma AllDigitsBehind(digit: char)
    requires Decimal.IsDigit(digit)
    ensures Decimal.AllDigits([digit] + ZEROS) && |[digit] + ZEROS| == 20
  {
  }

  /** So the test is one-sided: twenty digits that start with 3 wrap to a larger number, those with 2 to a smaller. */
  lemma OverflowTestIsOneSided(s: Session)
    requires !Halted(s.parser) && s.parser.state == HeaderValueStart && s.parser.headerState == HContentLength
    requires s.parser.nread + 20 <= HTTP_MAX_HEADER_SIZE
    ensures var q := Run(s, "30000000000000000000").parser;
      q.errno == OK && q.contentLength == 11_553_255_926_290_448_384
    ensures Run(s, "20000000000000000000").parser.errno != OK
  {
    hide Run, Decimal.Value, Decimal.AllDigits, Squeezed;
    AllDigitsBehind('3');
    AllDigitsBehind('2');
    assert "30000000000000000000" == ['3'] + ZEROS;
    assert "20000000000000000000" == ['2'] + ZEROS;
    NineteenZeros('3');
    NineteenZeros('2');
    SqueezedDigits("30000000000000000000");
    SqueezedDigits("20000000000000000000");
    OverflowTest(s, "30000000000000000000");
    OverflowTest(s, "20000000000000000000");
  }
}
