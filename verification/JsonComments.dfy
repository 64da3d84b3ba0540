/** Where Json::Reader allows comments, and what it makes of them (jsoncpp/json_reader.cpp). */
module JsonComments {
  import opened Common
  import opened JsonValue
  import opened JsonGrammar
  import opened JsonText
  import opened JsonRoundTrip
  import Decimal

  /** From slash and star to the first star and slash behind them. */
  predicate IsBlock(c: string) {
    && |c| >= 4 && c[0] == '/' && c[1] == '*' && c[|c| - 2] == '*' && c[|c| - 1] == '/'
    && forall i :: 2 <= i < |c| - 2 ==> !(c[i] == '*' && c[i + 1] == '/')
  }

  /** Line feed and carriage return. */
  predicate EndsLine(c: char) { c as int == 0x0A || c as int == 0x0D }

  /** Two slashes and bytes of the same line. */
  predicate IsOpenLine(c: string) {
    && |c| >= 2 && c[0] == '/' && c[1] == '/'
    && forall i :: 2 <= i < |c| ==> !EndsLine(c[i])
  }

  predicate IsLine(c: string) { |c| >= 3 && IsOpenLine(c[..|c| - 1]) && EndsLine(c[|c| - 1]) }

  predicate IsComment(c: string) { IsBlock(c) || IsLine(c) }

  /** Blank, horizontal tab, line feed, carriage return: the white space of section 2 of RFC 8259. */
  predicate IsWhite(c: char) { c as int == 0x20 || c as int == 0x09 || c as int == 0x0A || c as int == 0x0D }

  /** White space and comments in any order. */
  ghost predicate IsGap(g: string)
    decreases |g|
  {
    || g == []
    || (IsWhite(g[0]) && IsGap(g[1..]))
    || exists n :: 1 <= n <= |g| && IsComment(g[..n]) && IsGap(g[n..])
  }

  // ---------- the scanner ----------

  lemma {:induction false} BlockEnds(body: string, s: string)
    requires |body| >= 2 && body[|body| - 2] == '*' && body[|body| - 1] == '/'
    requires forall i :: 0 <= i < |body| - 2 ==> !(body[i] == '*' && body[i + 1] == '/')
    ensures BlockLength(body + s) == Some(|body|)
  {
    if |body| > 2 {
      BlockEnds(body[1..], s);
      assert (body + s)[1..] == body[1..] + s;
    }
  }

  lemma {:induction false} LineEnds(body: string, s: string)
    requires body != [] && EndsLine(body[|body| - 1]) && forall i :: 0 <= i < |body| - 1 ==> !EndsLine(body[i])
    ensures RestOfLine(body + s) == |body|
  {
    if |body| > 1 {
      LineEnds(body[1..], s);
      assert (body + s)[1..] == body[1..] + s;
    }
  }

  /** A comment is one token, whatever follows it. */
  lemma CommentToken(c: string, s: string)
    requires IsComment(c)
    ensures ReadToken(c + s) == Token(Comment, c, s)
  {
    hide BlockLength, RestOfLine, StringLength, NumberLength;
    var all := c + s;
    assert all[2..] == c[2..] + s && all[..|c|] == c && all[|c|..] == s;
    assert SkipSpaces(all) == all;
    if IsBlock(c) {
      BlockEnds(c[2..], s);
    } else {
      LineEnds(c[2..], s);
    }
  }

  lemma {:induction false} BlockShape(s: string)
    ensures var n := BlockLength(s); n.Some? ==>
      && s[n.value - 2] == '*' && s[n.value - 1] == '/'
      && forall i :: 0 <= i < n.value - 2 ==> !(s[i] == '*' && s[i + 1] == '/')
    ensures BlockLength(s) == None ==> forall i :: 0 <= i < |s| - 1 ==> !(s[i] == '*' && s[i + 1] == '/')
  {
    if |s| >= 2 && !(s[0] == '*' && s[1] == '/') {
      BlockShape(s[1..]);
      assert forall i :: 1 <= i < |s| ==> s[i] == s[1..][i - 1];
    }
  }

  lemma {:induction false} LineShape(s: string)
    ensures var n := RestOfLine(s);
      && (forall i :: 0 <= i < n - 1 ==> !EndsLine(s[i]))
      && (n > 0 && !EndsLine(s[n - 1]) ==> n == |s|)
      && (n == 0 ==> s == [])
  {
    if s != [] && !EndsLine(s[0]) {
      LineShape(s[1..]);
    }
  }

  /** Nothing else is one, but a line that the document ends. */
  lemma CommentShape(s: string)
    ensures var t := ReadToken(s);
      t.kind == Comment ==> IsComment(t.text) || (IsOpenLine(t.text) && t.rest == [])
  {
    hide BlockLength, RestOfLine, StringLength, NumberLength, ReadComment, IsComment, IsOpenLine, SkipSpaces;
    var ahead := SkipSpaces(s);
    if ReadToken(s).kind == Comment {
      assert ReadToken(s) == ReadComment(ahead);
      TextOfComment(ahead);
    }
  }

  lemma TextOfComment(s: string)
    requires s != [] && s[0] == '/' && ReadComment(s).kind == Comment
    ensures var t := ReadComment(s); IsComment(t.text) || (IsOpenLine(t.text) && t.rest == [])
  {
    hide BlockLength, RestOfLine, IsBlock, IsLine, IsOpenLine;
    if s[1] == '*' {
      BlockText(s, BlockLength(s[2..]).value);
    } else {
      LineText(s, RestOfLine(s[2..]));
    }
  }

  lemma BlockText(s: string, n: nat)
    requires |s| >= 2 && s[..2] == "/*" && BlockLength(s[2..]) == Some(n)
    ensures IsBlock(s[..2 + n])
  {
    hide BlockLength;
    BlockShape(s[2..]);
    assert forall i :: 0 <= i < n ==> s[..2 + n][2 + i] == s[2..][i];
    var c := s[..2 + n];
    forall i | 2 <= i < |c| - 2 ensures !(c[i] == '*' && c[i + 1] == '/') {
      assert c[i] == s[2..][i - 2] && c[i + 1] == s[2..][i - 1];
    }
  }

  lemma LineText(s: string, n: nat)
    requires |s| >= 2 && s[..2] == "//" && RestOfLine(s[2..]) == n
    ensures IsLine(s[..2 + n]) || (IsOpenLine(s[..2 + n]) && s[2 + n..] == [])
  {
    hide RestOfLine;
    LineShape(s[2..]);
    var c := s[..2 + n];
    assert forall i :: 2 <= i < 2 + n ==> c[i] == s[2..][i - 2];
    if n > 0 && EndsLine(c[n + 1]) {
      assert forall i :: 2 <= i < n + 1 ==> c[..n + 1][i] == c[i];
    }
  }

  /** The next token behind a gap is the next token. */
  lemma {:induction false} GapIgnored(g: string, s: string)
    requires IsGap(g)
    ensures NextToken(g + s) == NextToken(s)
    decreases |g|
  {
    hide ReadToken, IsComment;
    if g == [] {
      assert g + s == s;
    } else if IsWhite(g[0]) && IsGap(g[1..]) {
      GapIgnored(g[1..], s);
      SpaceAheadOfToken(g[..1], g[1..] + s);
      assert g + s == g[..1] + (g[1..] + s);
    } else {
      var n :| 1 <= n <= |g| && IsComment(g[..n]) && IsGap(g[n..]);
      GapIgnored(g[n..], s);
      CommentToken(g[..n], g[n..] + s);
      assert g + s == g[..n] + (g[n..] + s);
    }
  }

  // ---------- where comments change nothing ----------

  /** In front of a value, behind an element of an array, and in front of a member name. */
  lemma GapBetween(g: string, s: string, elements: seq<Value>, name: string, members: seq<Member>)
    requires IsGap(g)
    ensures ReadValue(g + s) == ReadValue(s)
    ensures AfterElement(g + s, elements) == AfterElement(s, elements)
    ensures ReadMembers(g + s, name, members) == ReadMembers(s, name, members)
  {
    hide NextToken, IsGap;
    GapIgnored(g, s);
  }

  /** In front of a document, and behind its value, where nothing matters. */
  lemma GapAroundDocument(g: string, d: string, v: Value, rest: string)
    requires IsGap(g) && Reads(d, v) && Stop(rest)
    ensures Parse(g + d + rest) == Some(v)
  {
    hide ReadValue, IsGap;
    GapBetween(g, d + rest, [], [], []);
    assert g + d + rest == g + (d + rest);
  }

  // ---------- where they do ----------

  /** A comment between a name and its colon fails the object. */
  lemma CommentBeforeColon(m: string, c: string, s: string, name: string, members: seq<Member>)
    requires IsComment(c)
    ensures ReadMembers(Quoted(m) + (c + s), name, members) == Failed
  {
    hide ReadToken, IsComment, Quoted, DecodeString;
    TokenOfQuoted(m, c + s);
    CommentToken(c, s);
  }

  /** A comment that opens an array without elements fails it. */
  lemma CommentInEmptyArray(c: string, g: string, s: string)
    requires IsComment(c) && IsGap(g)
    ensures ReadArray(c + (g + ("]" + s))) == Failed
  {
    hide ReadToken, BlockLength, RestOfLine, IsGap;
    var all := c + (g + ("]" + s));
    assert SkipSpaces(all) == all && all[0] == '/';
    CommentToken(c, g + ("]" + s));
    GapIgnored(g, "]" + s);
    NoSpace();
    TokenOfPunctuation([], ']', s);
    assert [] + [']'] + s == "]" + s;
    assert ReadValue(all) == Failed;
  }

  /**
   * A comment behind a member is ignored if and only if a comma, a closing brace or another comment is next, or the
   * members behind the next token fail anyway: that token is taken for the comma, whatever it is.
   */
  lemma CommentBehindMember(c: string, s: string, name: string, members: seq<Member>)
    requires IsComment(c)
    ensures var t := NextToken(s);
      && AfterMember(c + s, name, members) ==
           (if t.kind == ObjectEnd then Read(Obj(members), t.rest) else ReadMembers(t.rest, name, members))
      && (AfterMember(c + s, name, members) == AfterMember(s, name, members) <==>
          ReadToken(s).kind in {ObjectEnd, ArraySeparator, Comment} || ReadMembers(t.rest, name, members) == Failed)
  {
    hide ReadToken, IsComment, ReadMembers;
    CommentToken(c, s);
  }

  /** So a comment hides a byte that no JSON document may hold outside its strings. */
  lemma CommentHidesJunk(c: string, a: Member, aText: string, junk: char, b: Member, bText: string)
    requires IsComment(c) && IsJunk(junk) && Below([a], [b]) && NulFree(a.name) && NulFree(b.name)
    requires Reads(aText, a.value) && Reads(bText, b.value)
    ensures var behind := [junk] + (Quoted(b.name) + (":" + (bText + "}")));
      && Parse("{" + (Quoted(a.name) + (":" + (aText + (c + behind))))) == Some(Obj([a, b]))
      && Parse("{" + (Quoted(a.name) + (":" + (aText + behind)))) == None
  {
    hide Reads, ReadValue, IsComment, Quoted, NulFree, Below, AfterMember, ReadMembers;
    var second := Quoted(b.name) + (":" + (bText + "}"));
    var behind := [junk] + second;
    JunkToken(junk, second);
    CommentStops(c, behind);
    FirstMember(a, aText, c + behind);
    FirstMember(a, aText, behind);
    CommentBehindMember(c, behind, a.name, [a]);
    JunkBehindMember(junk, second, a.name, [a]);
    LastMember(a, b, bText);
  }

  /** For example. */
  lemma CommentHidesAt()
    ensures Parse("{\"a\":1/**/@\"b\":2}") == Some(Obj([Member("a", Tagged(1)), Member("b", Tagged(2))]))
    ensures Parse("{\"a\":1@\"b\":2}") == None
  {
    hide Parse, Reads, Decimal.Spelling, NulFree, IsBlock, Quoted;
    NumberReads(1);
    NumberReads(2);
    SmallTexts();
    CommentHidesJunk("/**/", Member("a", Tagged(1)), "1", '@', Member("b", Tagged(2)), "2");
    assert "{" + ("\"a\"" + (":" + ("1" + ("/**/" + (['@'] + ("\"b\"" + (":" + ("2" + "}")))))))) == "{\"a\":1/**/@\"b\":2}";
    assert "{" + ("\"a\"" + (":" + ("1" + (['@'] + ("\"b\"" + (":" + ("2" + "}"))))))) == "{\"a\":1@\"b\":2}";
  }

  lemma SmallTexts()
    ensures Decimal.Spelling(1) == "1" && Decimal.Spelling(2) == "2"
    ensures Quoted("a") == "\"a\"" && Quoted("b") == "\"b\""
    ensures NulFree("a") && NulFree("b") && IsBlock("/**/")
  {
    assert "a"[1..] == [] && "b"[1..] == [];
    assert Escape("a") == EscapeChar('a') + Escape([]) && Escape("b") == EscapeChar('b') + Escape([]);
  }

  /** A byte that starts no token. */
  predicate IsJunk(c: char) {
    && !IsWhite(c) && Stop([c]) && c != '\0'
    && c !in "{}[],:\"/tfn"
  }

  lemma JunkToken(junk: char, s: string)
    requires IsJunk(junk)
    ensures ReadToken([junk] + s) == Token(Error, [junk], s)
    ensures NextToken([junk] + s) == ReadToken([junk] + s)
    ensures Stop([junk] + s)
  {
    hide BlockLength, RestOfLine, StringLength, NumberLength;
    var all := [junk] + s;
    var starts := "{}[],:\"/tfn";
    assert starts[0] == '{' && starts[1] == '}' && starts[2] == '[' && starts[3] == ']' && starts[4] == ','
      && starts[5] == ':' && starts[6] == '"' && starts[7] == '/' && starts[8] == 't' && starts[9] == 'f' && starts[10] == 'n';
    assert SkipSpaces(all) == all && all[1..] == s;
  }

  lemma CommentStops(c: string, s: string)
    requires IsComment(c)
    ensures Stop(c + s)
  {
  }

  lemma JunkBehindMember(junk: char, s: string, name: string, members: seq<Member>)
    requires IsJunk(junk)
    ensures AfterMember([junk] + s, name, members) == Failed
  {
    hide ReadToken, IsJunk;
    JunkToken(junk, s);
  }

  lemma FirstMember(a: Member, aText: string, rest: string)
    requires NulFree(a.name) && Reads(aText, a.value) && Stop(rest)
    ensures ReadValue("{" + (Quoted(a.name) + (":" + (aText + rest)))) == AfterMember(rest, a.name, [a])
  {
    hide ReadToken, AfterMember, Quoted, DecodeString, Stop, SetMember;
    var value := ":" + (aText + rest);
    var all := Quoted(a.name) + value;
    NoSpace();
    TokenOfPunctuation([], '{', all);
    assert [] + ['{'] + all == "{" + all;
    TokenOfQuoted(a.name, value);
    DecodeQuoted(a.name);
    TokenOfPunctuation([], ':', aText + rest);
    assert [] + [':'] + (aText + rest) == value;
    SetMemberAtEnd([], a.name, a.value);
    assert [] + [a] == [a];
  }

  lemma LastMember(a: Member, b: Member, bText: string)
    requires NulFree(b.name) && Reads(bText, b.value) && Below([a], [b])
    ensures ReadMembers(Quoted(b.name) + (":" + (bText + "}")), a.name, [a]) == Read(Obj([a, b]), [])
  {
    hide ReadMembers, Reads, Quoted;
    NoSpace();
    MemberStep([], b, [], bText, [], '}', [], a.name, [a]);
    assert [] + ['}'] + [] == "}" && [] + [':'] + (bText + "}") == ":" + (bText + "}");
    assert [] + (Quoted(b.name) + (":" + (bText + "}"))) == Quoted(b.name) + (":" + (bText + "}"));
    assert [a] + [b] == [a, b];
  }
}
