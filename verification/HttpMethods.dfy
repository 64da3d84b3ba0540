/** The method words the request parser accepts: the words of its table, with one exception. */
module HttpMethods {
  import opened Common
  import opened HttpMachine

  /** The word that selects a method. For MSEARCH the table's blank is jumped over by the byte that switches to it. */
  function Word(m: Method): string {
    if m == MSEARCH then "M-- SEARCH" else MethodLiteral(m)
  }

  /** The words, one by one. */
  lemma Words()
    ensures Word(DELETE) == "DELETE" && Word(GET) == "GET" && Word(HEAD) == "HEAD" && Word(POST) == "POST" && Word(PUT) == "PUT"
    ensures Word(CONNECT) == "CONNECT" && Word(OPTIONS) == "OPTIONS" && Word(TRACE) == "TRACE" && Word(COPY) == "COPY"
    ensures Word(LOCK) == "LOCK" && Word(MKCOL) == "MKCOL" && Word(MOVE) == "MOVE" && Word(PROPFIND) == "PROPFIND"
    ensures Word(PROPPATCH) == "PROPPATCH" && Word(SEARCH) == "SEARCH" && Word(UNLOCK) == "UNLOCK" && Word(REPORT) == "REPORT"
    ensures Word(MKACTIVITY) == "MKACTIVITY" && Word(CHECKOUT) == "CHECKOUT" && Word(MERGE) == "MERGE"
    ensures Word(MSEARCH) == "M-- SEARCH" && Word(NOTIFY) == "NOTIFY" && Word(SUBSCRIBE) == "SUBSCRIBE"
    ensures Word(UNSUBSCRIBE) == "UNSUBSCRIBE" && Word(PATCH) == "PATCH" && Word(PURGE) == "PURGE"
  {
  }

  /** The method the parser has in mind after k bytes of the word of m. */
  function Current(m: Method, k: nat): Method {
    match m
    case COPY => if k <= 2 then CONNECT else m
    case CHECKOUT => if k <= 1 then CONNECT else m
    case MOVE => if k <= 1 then MKCOL else m
    case MERGE => if k <= 1 then MKCOL else m
    case MSEARCH => if k <= 1 then MKCOL else m
    case MKACTIVITY => if k <= 2 then MKCOL else m
    case SEARCH => if k <= 1 then SUBSCRIBE else m
    case PROPFIND => if k <= 1 then POST else m
    case PUT => if k <= 1 then POST else m
    case PATCH => if k <= 1 then POST else m
    case PURGE => if k <= 1 then POST else if k <= 2 then PUT else m
    case UNSUBSCRIBE => if k <= 2 then UNLOCK else m
    case PROPPATCH => if k <= 1 then POST else if k <= 4 then PROPFIND else m
    case _ => m
  }

  /** One byte of the word of m moves on from the right method to the right method. */
  lemma WordNext(m: Method, k: nat)
    requires 1 <= k < |Word(m)|
    ensures var c := Current(m, k); var ch := Word(m)[k];
      if ch == CharAt(MethodLiteral(c), k) then Current(m, k + 1) == c
      else OtherMethod(c, k, ch) == Some(Current(m, k + 1))
  {
  }

  lemma WordBytes(m: Method, k: nat)
    requires 1 <= k < |Word(m)|
    ensures Word(m)[k] != '\0'
    ensures Word(m)[k] == ' ' ==> CharAt(MethodLiteral(Current(m, k)), k) != '\0'
  {
  }

  lemma WordFirst(m: Method)
    ensures |Word(m)| >= 3 && IsAlpha(Word(m)[0]) && FirstMethod(Word(m)[0]) == Some(Current(m, 1))
  {
  }

  /** The other direction: what the parser has in mind spells what it has read. */
  predicate Spells(m: Method, k: nat, w: string) {
    1 <= k == |w| <= |Word(m)| && forall i :: 0 <= i < k ==> w[i] == Word(m)[i]
  }

  lemma SpellsNext(m: Method, k: nat, w: string, ch: char)
    requires Spells(m, k, w) && ch != '\0'
    ensures ch == CharAt(MethodLiteral(m), k) && !(m == MSEARCH && k <= 1) ==> Spells(m, k + 1, w + [ch])
  {
    if ch == CharAt(MethodLiteral(m), k) && !(m == MSEARCH && k <= 1) {
      assert Word(m)[k] == ch;
      assert (w + [ch])[k] == ch;
    }
  }

  /** A switch to another method agrees with everything read before it. */
  lemma SwitchSpells(m: Method, k: nat, w: string, ch: char)
    requires Spells(m, k, w) && OtherMethod(m, k, ch).Some? && ch != CharAt(MethodLiteral(m), k)
    ensures Spells(OtherMethod(m, k, ch).value, k + 1, w + [ch])
  {
    var n := OtherMethod(m, k, ch).value;
    assert Word(n)[k] == ch && k < 5;
    assert forall i :: 0 <= i < k ==> Word(n)[i] == Word(m)[i];
  }

  /** The states of the request line behind the method; without a line feed there is no way back. */
  predicate BehindMethod(s: State) {
    match s
    case ReqSpacesBeforeUrl => true case ReqSchema => true case ReqSchemaSlash => true case ReqSchemaSlashSlash => true
    case ReqServerStart => true case ReqServer => true case ReqServerWithAt => true case ReqPath => true
    case ReqQueryStringStart => true case ReqQueryString => true case ReqFragmentStart => true case ReqFragment => true
    case ReqHttpStart => true case ReqHttpH => true case ReqHttpHT => true case ReqHttpHTT => true case ReqHttpHTTP => true
    case ReqFirstHttpMajor => true case ReqHttpMajor => true case ReqFirstHttpMinor => true case ReqHttpMinor => true
    case _ => false
  }

  lemma UrlStays(s: State, ch: char)
    requires BehindMethod(s)
    ensures ParseUrlChar(s, ch) == Dead || BehindMethod(ParseUrlChar(s, ch))
  {
  }

  lemma BehindStays(p: Parser, ch: char)
    requires !Halted(p) && BehindMethod(p.state) && ch != CR && ch != LF
    ensures var q := Step(p, ch).parser; q.errno != OK || (!q.upgrade && BehindMethod(q.state))
  {
    hide ExecUrl, ExecVersion;
    var q := Counted(p);
    if q.errno == OK {
      if p.state == ReqSpacesBeforeUrl || IsUrlState(p.state) {
        assert Exec(q, ch) == ExecUrl(q, ch);
        UrlKeepsBehind(q, ch);
      } else {
        assert Exec(q, ch) == ExecVersion(q, ch);
        VersionKeepsBehind(q, ch);
      }
    }
  }

  lemma UrlKeepsBehind(p: Parser, ch: char)
    requires !Halted(p) && BehindMethod(p.state) && ch != CR && ch != LF
    ensures var q := ExecUrl(p, ch).parser; q.errno != OK || (!q.upgrade && BehindMethod(q.state))
  {
    hide ParseUrlChar;
    UrlStays(p.state, ch);
    UrlStays(ReqServerStart, ch);
  }

  lemma VersionKeepsBehind(p: Parser, ch: char)
    requires !Halted(p) && BehindMethod(p.state) && p.state != ReqSpacesBeforeUrl && !IsUrlState(p.state) && ch != CR && ch != LF
    ensures var q := ExecVersion(p, ch).parser; q.errno != OK || (!q.upgrade && BehindMethod(q.state))
  {
  }

  /** After the word w: in error, behind the method, or still in a method that spells w. */
  predicate Reading(p: Parser, w: string) {
    || p.errno != OK
    || (!p.upgrade && BehindMethod(p.state))
    || (!p.upgrade && p.state == ReqMethod && p.index == |w| && Spells(p.method_, p.index, w)
        && (p.method_ == MSEARCH ==> p.index >= 2))
  }

  lemma MethodStep(p: Parser, w: string, ch: char)
    requires !Halted(p) && p.state == ReqMethod && Reading(p, w) && ch != CR && ch != LF
    ensures Reading(Step(p, ch).parser, w + [ch])
  {
    var q := Counted(p);
    if q.errno == OK {
      assert Step(p, ch) == ExecMethod(q, ch);
      if ch != '\0' {
        SpellsNext(p.method_, p.index, w, ch);
        if OtherMethod(p.method_, p.index, ch).Some? && ch != CharAt(MethodLiteral(p.method_), p.index) {
          SwitchSpells(p.method_, p.index, w, ch);
        }
      }
    }
  }

  lemma {:induction false} RunReading(s: Session, w: string, more: string)
    requires Reading(s.parser, w) && NoLineBreak(more)
    ensures Reading(Run(s, more).parser, w + more)
    decreases |more|
  {
    hide Step;
    if more == "" {
      assert w + more == w;
    } else if Halted(s.parser) {
    } else {
      var ch := more[0];
      if s.parser.state == ReqMethod {
        MethodStep(s.parser, w, ch);
      } else {
        BehindStays(s.parser, ch);
      }
      RunReading(Advance(s, ch), w + [ch], more[1..]);
      assert (w + [ch]) + more[1..] == w + more;
    }
  }

  lemma MethodStart(s: Session, ch: char)
    requires !Halted(s.parser) && s.parser.state == StartReq && ch != CR && ch != LF
    ensures Reading(Advance(s, ch).parser, [ch])
    ensures s.parser.nread < HTTP_MAX_HEADER_SIZE && IsAlpha(ch) && FirstMethod(ch).Some? ==>
      Advance(s, ch).parser == s.parser.(nread := s.parser.nread + 1, flags := NO_FLAGS, contentLength := ULLONG_MAX,
        method_ := FirstMethod(ch).value, index := 1, state := ReqMethod)
  {
    hide Log, LogAll, Word;
    assert s.parser.nread < HTTP_MAX_HEADER_SIZE ==> Step(s.parser, ch) == ExecStart(Counted(s.parser), ch);
    if FirstMethod(ch).Some? {
      FirstLetter(ch);
    }
  }

  lemma FirstLetter(ch: char)
    requires FirstMethod(ch).Some?
    ensures var w := Word(FirstMethod(ch).value); w != "" && w[0] == ch
  {
  }

  /** The parser is inside the word of m, having read its first k bytes. */
  predicate Inside(p: Parser, m: Method, k: nat) {
    !Halted(p) && p.state == ReqMethod && p.index == k && p.method_ == Current(m, k)
  }

  lemma WordStep(s: Session, m: Method, k: nat)
    requires 1 <= k < |Word(m)| && Inside(s.parser, m, k) && s.parser.nread < HTTP_MAX_HEADER_SIZE
    ensures var q := Advance(s, Word(m)[k]).parser; Inside(q, m, k + 1) && q.nread == s.parser.nread + 1
  {
    WordNext(m, k);
    WordBytes(m, k);
    hide Word, Current, OtherMethod, MethodLiteral;
    assert Step(s.parser, Word(m)[k]) == ExecMethod(Counted(s.parser), Word(m)[k]);
  }

  lemma {:induction false} RunWord(s: Session, m: Method, k: nat)
    requires 1 <= k <= |Word(m)| && Inside(s.parser, m, k)
    requires s.parser.nread + |Word(m)| - k <= HTTP_MAX_HEADER_SIZE
    ensures Inside(Run(s, Word(m)[k..]).parser, m, |Word(m)|)
    decreases |Word(m)| - k
  {
    hide Step, Word;
    if k < |Word(m)| {
      WordStep(s, m, k);
      assert Word(m)[k..][1..] == Word(m)[k + 1..];
      RunWord(Advance(s, Word(m)[k]), m, k + 1);
    }
  }

  /** The parser has read a whole method word: a blank now ends it. */
  predicate WholeMethod(p: Parser, m: Method) {
    !Halted(p) && p.state == ReqMethod && p.method_ == m && CharAt(MethodLiteral(m), p.index) == '\0'
  }

  lemma WholeSpelling(m: Method, w: string)
    requires Spells(m, |w|, w) && CharAt(MethodLiteral(m), |w|) == '\0'
    ensures w == Word(m)
  {
    if |w| < |Word(m)| {
      NoNulInWord(m, |w|);
    }
  }

  lemma NoNulInWord(m: Method, k: nat)
    requires k < |Word(m)|
    ensures CharAt(MethodLiteral(m), k) != '\0'
  {
  }

  lemma CurrentEnds(m: Method)
    ensures Current(m, |Word(m)|) == m && |Word(m)| == |MethodLiteral(m)|
  {
  }

  lemma OnlyItsWord(s: Session, w: string, m: Method)
    requires !Halted(s.parser) && s.parser.state == StartReq && w != "" && NoLineBreak(w)
    requires WholeMethod(Run(s, w).parser, m)
    ensures w == Word(m)
  {
    var t := Advance(s, w[0]);
    MethodStart(s, w[0]);
    hide Step, Word, BehindMethod, Spells, FirstMethod;
    assert [w[0]] + w[1..] == w;
    RunReading(t, [w[0]], w[1..]);
    assert Run(s, w) == Run(t, w[1..]);
    NotBehind(Run(s, w).parser, w);
    WholeSpelling(m, w);
  }

  lemma NotBehind(p: Parser, w: string)
    requires Reading(p, w) && p.errno == OK && p.state == ReqMethod
    ensures Spells(p.method_, |w|, w) && p.index == |w|
  {
  }

  lemma ItsWordIsRead(s: Session, m: Method)
    requires !Halted(s.parser) && s.parser.state == StartReq
    requires s.parser.nread + |Word(m)| <= HTTP_MAX_HEADER_SIZE
    ensures WholeMethod(Run(s, Word(m)).parser, m)
  {
    WordFirst(m);
    var w := Word(m);
    var t := Advance(s, w[0]);
    MethodStart(s, w[0]);
    hide Step, Word, Current, FirstMethod, Reading;
    RunWord(t, m, 1);
    assert Run(s, w) == Run(t, w[1..]);
    CurrentEnds(m);
  }

  /** From the start of a request, a word without line breaks is taken for a method exactly when it is the
      method's word; the word of M-SEARCH is "M-- SEARCH". */
  lemma MethodRecognition(s: Session, w: string, m: Method)
    requires !Halted(s.parser) && s.parser.state == StartReq && w != "" && NoLineBreak(w)
    requires s.parser.nread + |w| <= HTTP_MAX_HEADER_SIZE
    ensures WholeMethod(Run(s, w).parser, m) <==> w == Word(m)
  {
    hide Step, Word;
    if WholeMethod(Run(s, w).parser, m) {
      OnlyItsWord(s, w, m);
    }
    if w == Word(m) {
      ItsWordIsRead(s, m);
    }
  }
}
