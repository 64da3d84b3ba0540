/** Texts the reader reads as a given value, built up the way the writers build them. */
module JsonRoundTrip {
  import opened Common
  import opened JsonValue
  import opened JsonGrammar
  import opened JsonText
  import Decimal

  /** In front of anything that does not continue a number, d is read as v and nothing more is consumed. */
  ghost predicate Reads(d: string, v: Value) {
    forall rest | Stop(rest) :: ReadValue(d + rest) == Read(v, rest)
  }

  /** The array loop passes over d, storing vs. */
  ghost predicate PassesElements(d: string, vs: seq<Value>) {
    forall rest, stored :: ReadElements(d + rest, stored) == ReadElements(rest, stored + vs)
  }

  function LastName(name: string, ms: seq<Member>): string {
    if ms == [] then name else ms[|ms| - 1].name
  }

  predicate NamesNulFree(ms: seq<Member>) { forall k :: 0 <= k < |ms| ==> NulFree(ms[k].name) }

  /** The object loop passes over d, storing the members ms after members with smaller names. */
  ghost predicate PassesMembers(d: string, ms: seq<Member>) {
    forall rest, name, stored | Below(stored, ms) && NamesNulFree(ms) ::
      ReadMembers(d + rest, name, stored) == ReadMembers(rest, LastName(name, ms), stored + ms)
  }

  // ---------- scalars ----------

  lemma Grouped(a: string, b: string, c: string, d: string)
    ensures a + b + c + d == a + (b + c + d) && a + b + c + d == a + b + (c + d) && a + b + c == a + (b + c)
    ensures a + (b + c) + d == a + (b + (c + d))
  {
  }

  lemma NothingBetween(a: string, b: string, c: string)
    ensures a + [] + b + c == a + b + c
  {
  }

  lemma SpaceThenReads(space: string, d: string, v: Value)
    requires AllSpaces(space) && Reads(d, v)
    ensures Reads(space + d, v)
  {
    hide ReadToken, ReadMembers, ReadArray, AllSpaces, Stop;
    forall rest | Stop(rest) ensures ReadValue(space + d + rest) == Read(v, rest) {
      SpaceAheadOfToken(space, d + rest);
      assert ReadValue(space + (d + rest)) == ReadValue(d + rest);
      Grouped(space, d, rest, []);
    }
  }

  lemma NoSpace()
    ensures AllSpaces([]) && AllSpaces(" ")
  {
  }

  lemma WordReads(v: Value, d: string)
    requires v.Null? || v.Bool?
    requires d == if v.Null? then "null" else if v.b then "true" else "false"
    ensures Reads(d, v)
  {
    hide Stop;
    forall rest | Stop(rest) ensures ReadValue(d + rest) == Read(v, rest) {
      hide ReadToken;
      TokenOfWord(if v.Null? then NullWord else if v.b then True else False, d, rest);
    }
  }

  lemma TokenOfWord(kind: Kind, d: string, rest: string)
    requires (kind, d) in {(NullWord, "null"), (True, "true"), (False, "false")}
    ensures ReadToken(d + rest) == Token(kind, d, rest)
  {
    hide StringLength, NumberLength;
    var s := d + rest;
    assert s[0] == d[0] && SkipSpaces(s) == s;
    assert d <= s && s[|d|..] == rest;
  }

  lemma QuotedReads(s: string)
    requires NulFree(s)
    ensures Reads(Quoted(s), Str(s))
  {
    forall rest | Stop(rest) ensures ReadValue(Quoted(s) + rest) == Read(Str(s), rest) {
      hide ReadToken, DecodeString, Quoted;
      TokenOfQuoted(s, rest);
      DecodeQuoted(s);
    }
  }

  lemma NumberReads(n: int)
    requires LLONG_MIN < n <= ULLONG_MAX
    ensures Reads(Decimal.Spelling(n), Tagged(n))
  {
    DecodeSpelling(n);
    forall rest | Stop(rest) ensures ReadValue(Decimal.Spelling(n) + rest) == Read(Tagged(n), rest) {
      hide ReadToken, DecodeNumber, Decimal.Spelling, IsNumber;
      TokenOfNumber(Decimal.Spelling(n), rest);
    }
  }

  // ---------- punctuation ----------

  lemma TokenOfPunctuation(space: string, c: char, rest: string)
    requires AllSpaces(space) && (c == '{' || c == '}' || c == '[' || c == ']' || c == ',' || c == ':')
    ensures var t := ReadToken(space + [c] + rest);
      t.rest == rest && t.kind == (if c == '{' then ObjectBegin else if c == '}' then ObjectEnd else if c == '[' then ArrayBegin
                                   else if c == ']' then ArrayEnd else if c == ',' then ArraySeparator else MemberSeparator)
  {
    var s := [c] + rest;
    SpaceAheadOfToken(space, s);
    assert space + [c] + rest == space + s;
    assert SkipSpaces(s) == s && s[1..] == rest;
  }

  lemma StopBeforePunctuation(space: string, c: char, rest: string)
    requires AllSpaces(space) && !IsNumberChar(c)
    ensures Stop(space + [c] + rest)
  {
    if space != [] {
      assert (space + [c] + rest)[0] == space[0];
    }
  }

  // ---------- arrays ----------

  lemma PassesNothing()
    ensures PassesElements([], []) && PassesMembers([], [])
  {
    forall rest, stored: seq<Value> ensures ReadElements([] + rest, stored) == ReadElements(rest, stored + []) {
      assert [] + rest == rest && stored + [] == stored;
    }
    forall rest, name, stored: seq<Member> ensures ReadMembers([] + rest, name, stored) == ReadMembers(rest, LastName(name, []), stored + []) {
      assert [] + rest == rest && stored + [] == stored;
    }
  }

  /** One more element and its comma. */
  lemma PassesOneMore(d: string, vs: seq<Value>, e: string, v: Value)
    requires PassesElements(d, vs) && Reads(e, v)
    ensures PassesElements(d + e + ",", vs + [v])
  {
    hide Reads, ReadElements, AllSpaces;
    NoSpace();
    forall rest, stored ensures ReadElements(d + e + "," + rest, stored) == ReadElements(rest, stored + (vs + [v])) {
      ElementStep(e, v, [], ',', rest, stored + vs);
      ElementGroups(d, e, [], ',', rest);
      NothingBetween(d + e, ",", rest);
      assert stored + vs + [v] == stored + (vs + [v]);
    }
  }

  /** The same bytes, grouped as the array loop takes them. */
  lemma ElementGroups(d: string, e: string, space: string, c: char, rest: string)
    ensures d + e + space + [c] + rest == d + (e + (space + [c] + rest))
  {
    Grouped(d, e, space, [c]);
    Grouped(d, e, space + [c], rest);
  }

  /** What the loop does after an element, by the byte that follows. */
  lemma ElementStep(e: string, v: Value, space: string, c: char, rest: string, stored: seq<Value>)
    requires Reads(e, v) && AllSpaces(space) && (c == ',' || c == ']')
    ensures ReadElements(e + (space + [c] + rest), stored) ==
      if c == ']' then Read(Arr(stored + [v]), rest) else ReadElements(rest, stored + [v])
  {
    hide ReadToken, ReadValue;
    StopBeforePunctuation(space, c, rest);
    TokenOfPunctuation(space, c, rest);
  }

  /** A whole array: the elements with their commas, the last element, the bracket. */
  lemma ArrayReads(d: string, vs: seq<Value>, e: string, v: Value, space: string)
    requires PassesElements(d, vs) && Reads(e, v) && AllSpaces(space)
    ensures Reads("[" + d + e + space + "]", Arr(vs + [v]))
  {
    forall rest | Stop(rest) ensures ReadValue("[" + d + e + space + "]" + rest) == Read(Arr(vs + [v]), rest) {
      ArrayReadsBefore(d, vs, e, v, space, rest);
    }
  }

  lemma ArrayReadsBefore(d: string, vs: seq<Value>, e: string, v: Value, space: string, rest: string)
    requires PassesElements(d, vs) && Reads(e, v) && AllSpaces(space)
    ensures ReadValue("[" + d + e + space + "]" + rest) == Read(Arr(vs + [v]), rest)
  {
    hide Reads, AllSpaces, ReadToken, ReadValue;
    var last := e + (space + [']'] + rest);
    assert "[" + d + e + space + "]" + rest == [] + ['['] + (d + last);
    NoSpace();
    TokenOfPunctuation([], '[', d + last);
    assert ReadElements(d + last, []) == ReadElements(last, [] + vs);
    ElementStep(e, v, space, ']', rest, [] + vs);
    assert [] + vs + [v] == vs + [v];
    ArrayOfElements(d + last, Arr(vs + [v]), rest);
    ValueOfArray([] + ['['] + (d + last));
  }

  lemma ValueOfArray(s: string)
    requires ReadToken(s).kind == ArrayBegin
    ensures ReadValue(s) == ReadArray(ReadToken(s).rest)
  {
    hide ReadToken, ReadArray;
  }

  /** The test for an empty array does not fire on a text that starts with an element. */
  lemma ArrayOfElements(s: string, v: Value, rest: string)
    requires ReadElements(s, []) == Read(v, rest)
    ensures ReadArray(s) == Read(v, rest)
  {
    var ahead := SkipSpaces(s);
    assert SkipSpaces(ahead) == ahead;
    assert ReadToken(s) == ReadToken(ahead);
    assert ReadValue(s) == ReadValue(ahead);
    if ahead != [] && ahead[0] == ']' {
      NoElementInBracket(s);
    }
  }

  lemma NoElementInBracket(s: string)
    requires SkipSpaces(s) != [] && SkipSpaces(s)[0] == ']'
    ensures ReadElements(s, []) == Failed
  {
    assert ReadToken(s).kind == ArrayEnd;
  }

  lemma EmptyReads()
    ensures Reads("[]", Arr([])) && Reads("{}", Obj([]))
  {
    forall rest | Stop(rest) ensures ReadValue("[]" + rest) == Read(Arr([]), rest) {
      assert "[]" + rest == [] + ['['] + ("]" + rest);
      TokenOfPunctuation([], '[', "]" + rest);
      assert SkipSpaces("]" + rest) == "]" + rest && ("]" + rest)[1..] == rest;
    }
    forall rest | Stop(rest) ensures ReadValue("{}" + rest) == Read(Obj([]), rest) {
      assert "{}" + rest == [] + ['{'] + ("}" + rest);
      assert "}" + rest == [] + ['}'] + rest;
      TokenOfPunctuation([], '{', "}" + rest);
      TokenOfPunctuation([], '}', rest);
    }
  }

  // ---------- objects ----------

  /** What the object loop does with one member, by the byte that follows. */
  lemma MemberStep(lead: string, m: Member, colonSpace: string, e: string, space: string, c: char, rest: string,
                   name: string, stored: seq<Member>)
    requires AllSpaces(lead) && NulFree(m.name) && AllSpaces(colonSpace) && Reads(e, m.value) && AllSpaces(space)
    requires (c == ',' || c == '}') && Below(stored, [m])
    ensures ReadMembers(lead + (Quoted(m.name) + (colonSpace + [':'] + (e + (space + [c] + rest)))), name, stored) ==
      if c == '}' then Read(Obj(stored + [m]), rest) else ReadMembers(rest, m.name, stored + [m])
  {
    hide ReadToken, ReadValue, Quoted, DecodeString, SetMember;
    var afterValue := space + [c] + rest;
    var afterName := colonSpace + [':'] + (e + afterValue);
    SpaceAheadOfToken(lead, Quoted(m.name) + afterName);
    TokenOfQuoted(m.name, afterName);
    DecodeQuoted(m.name);
    TokenOfPunctuation(colonSpace, ':', e + afterValue);
    StopBeforePunctuation(space, c, rest);
    TokenOfPunctuation(space, c, rest);
    SetMemberAtEnd(stored, m.name, m.value);
    assert Quoted(m.name) != [];
  }

  /** The text of a member between the punctuation around it. */
  function MemberText(lead: string, name: string, colonSpace: string, e: string): string {
    lead + Quoted(name) + colonSpace + ":" + e
  }

  lemma BelowSplit(stored: seq<Member>, ms: seq<Member>, m: Member)
    requires Below(stored, ms + [m]) && Below(ms, [m])
    ensures Below(stored, ms) && Below(stored + ms, [m])
  {
    forall i, j | 0 <= i < |stored| && 0 <= j < |ms| ensures Less(stored[i].name, ms[j].name) {
      assert (ms + [m])[j] == ms[j];
    }
    forall i, j | 0 <= i < |stored + ms| && 0 <= j < |[m]| ensures Less((stored + ms)[i].name, [m][j].name) {
      assert (ms + [m])[|ms|] == m;
      if i >= |stored| {
        assert (stored + ms)[i] == ms[i - |stored|];
      }
    }
  }

  /** The same bytes, grouped as the object loop takes them. */
  lemma MemberGroups(d: string, lead: string, quoted: string, colonSpace: string, e: string, space: string, c: char,
                     rest: string)
    ensures d + (lead + quoted + colonSpace + ":" + e) + space + [c] + rest
      == d + (lead + (quoted + (colonSpace + [':'] + (e + (space + [c] + rest)))))
  {
    Grouped(d, lead + quoted + colonSpace + ":" + e, space + [c], rest);
    Grouped(d, lead + quoted + colonSpace + ":" + e, space, [c]);
    Grouped(lead + quoted, colonSpace + ":", e, space + [c] + rest);
    Grouped(lead + quoted, colonSpace, ":", e);
    Grouped(lead, quoted, colonSpace + ":" + (e + (space + [c] + rest)), []);
  }

  /** One more member and its comma. */
  lemma PassesOneMoreMember(d: string, ms: seq<Member>, lead: string, m: Member, colonSpace: string, e: string)
    requires PassesMembers(d, ms) && Below(ms, [m]) && NulFree(m.name)
    requires AllSpaces(lead) && AllSpaces(colonSpace) && Reads(e, m.value)
    ensures PassesMembers(d + MemberText(lead, m.name, colonSpace, e) + ",", ms + [m])
  {
    hide Below, NulFree, Reads, MemberText, ReadMembers, AllSpaces;
    forall rest, name, stored | Below(stored, ms + [m]) && NamesNulFree(ms + [m])
      ensures ReadMembers(d + MemberText(lead, m.name, colonSpace, e) + "," + rest, name, stored)
              == ReadMembers(rest, LastName(name, ms + [m]), stored + (ms + [m]))
    {
      PassesThisMember(d, ms, lead, m, colonSpace, e, rest, name, stored);
    }
  }

  lemma PassesThisMember(d: string, ms: seq<Member>, lead: string, m: Member, colonSpace: string, e: string,
                         rest: string, name: string, stored: seq<Member>)
    requires PassesMembers(d, ms) && Below(ms, [m]) && NulFree(m.name)
    requires AllSpaces(lead) && AllSpaces(colonSpace) && Reads(e, m.value)
    requires Below(stored, ms + [m]) && NamesNulFree(ms + [m])
    ensures ReadMembers(d + MemberText(lead, m.name, colonSpace, e) + "," + rest, name, stored)
      == ReadMembers(rest, LastName(name, ms + [m]), stored + (ms + [m]))
  {
    hide Below, NulFree, Reads, ReadMembers, AllSpaces, Quoted;
    NoSpace();
    BelowSplit(stored, ms, m);
    NamesSplit(ms, m);
    MemberGroups(d, lead, Quoted(m.name), colonSpace, e, [], ',', rest);
    NothingBetween(d + MemberText(lead, m.name, colonSpace, e), ",", rest);
    MemberStep(lead, m, colonSpace, e, [], ',', rest, LastName(name, ms), stored + ms);
    assert stored + ms + [m] == stored + (ms + [m]);
  }

  lemma NamesSplit(ms: seq<Member>, m: Member)
    requires NamesNulFree(ms + [m])
    ensures NamesNulFree(ms) && forall name :: LastName(name, ms + [m]) == m.name
  {
    hide NulFree;
    assert forall k :: 0 <= k < |ms| ==> (ms + [m])[k] == ms[k];
  }

  /** A whole object. */
  lemma ObjectReads(d: string, ms: seq<Member>, lead: string, m: Member, colonSpace: string, e: string, space: string)
    requires PassesMembers(d, ms) && Sorted(ms + [m]) && NamesNulFree(ms + [m])
    requires AllSpaces(lead) && AllSpaces(colonSpace) && Reads(e, m.value) && AllSpaces(space)
    ensures Reads("{" + d + MemberText(lead, m.name, colonSpace, e) + space + "}", Obj(ms + [m]))
  {
    forall rest | Stop(rest)
      ensures ReadValue("{" + d + MemberText(lead, m.name, colonSpace, e) + space + "}" + rest) == Read(Obj(ms + [m]), rest)
    {
      ObjectReadsBefore(d, ms, lead, m, colonSpace, e, space, rest);
    }
  }

  lemma ObjectReadsBefore(d: string, ms: seq<Member>, lead: string, m: Member, colonSpace: string, e: string, space: string,
                          rest: string)
    requires PassesMembers(d, ms) && Sorted(ms + [m]) && NamesNulFree(ms + [m])
    requires AllSpaces(lead) && AllSpaces(colonSpace) && Reads(e, m.value) && AllSpaces(space)
    ensures ReadValue("{" + d + MemberText(lead, m.name, colonSpace, e) + space + "}" + rest) == Read(Obj(ms + [m]), rest)
  {
    hide NulFree, Reads, Sorted, AllSpaces, PassesMembers, NamesNulFree, ReadToken, ReadValue, ReadMembers, MemberText;
    Braced(d, MemberText(lead, m.name, colonSpace, e), space, rest);
    MembersRead(d, ms, lead, m, colonSpace, e, space, rest);
    NoSpace();
    TokenOfPunctuation([], '{', d + MemberText(lead, m.name, colonSpace, e) + space + ['}'] + rest);
    ValueOfObject([] + ['{'] + (d + MemberText(lead, m.name, colonSpace, e) + space + ['}'] + rest));
  }

  lemma MembersRead(d: string, ms: seq<Member>, lead: string, m: Member, colonSpace: string, e: string, space: string,
                    rest: string)
    requires PassesMembers(d, ms) && Sorted(ms + [m]) && NamesNulFree(ms + [m])
    requires AllSpaces(lead) && AllSpaces(colonSpace) && Reads(e, m.value) && AllSpaces(space)
    ensures ReadMembers(d + MemberText(lead, m.name, colonSpace, e) + space + ['}'] + rest, [], [])
      == Read(Obj(ms + [m]), rest)
  {
    hide NulFree, Reads, Sorted, AllSpaces, ReadToken, ReadValue, ReadMembers, Quoted;
    SortedSplit(ms, m);
    NamesSplit(ms, m);
    assert (ms + [m])[|ms|] == m;
    var last := lead + (Quoted(m.name) + (colonSpace + [':'] + (e + (space + ['}'] + rest))));
    MemberGroups(d, lead, Quoted(m.name), colonSpace, e, space, '}', rest);
    assert ReadMembers(d + last, [], []) == ReadMembers(last, LastName([], ms), [] + ms);
    MemberStep(lead, m, colonSpace, e, space, '}', rest, LastName([], ms), [] + ms);
    assert [] + ms + [m] == ms + [m];
  }

  lemma Braced(d: string, member: string, space: string, rest: string)
    ensures "{" + d + member + space + "}" + rest == [] + ['{'] + (d + member + space + ['}'] + rest)
  {
    Grouped("{", d, member, space);
    Grouped("{", d + member + space, "}", rest);
    Grouped("{", d, member + space, "}");
  }

  lemma ValueOfObject(s: string)
    requires ReadToken(s).kind == ObjectBegin
    ensures ReadValue(s) == ReadMembers(ReadToken(s).rest, [], [])
  {
    hide ReadToken, ReadMembers;
  }

  lemma SortedSplit(ms: seq<Member>, m: Member)
    requires Sorted(ms + [m])
    ensures Sorted(ms) && Below(ms, [m]) && Below([], ms) && Below([] + ms, [m])
  {
    var all := ms + [m];
    assert forall i :: 0 <= i < |ms| ==> all[i] == ms[i];
    forall i, j | 0 <= i < |ms| && 0 <= j < |[m]| ensures Less(ms[i].name, [m][j].name) {
      assert Less(all[i].name, all[|ms|].name);
    }
    assert [] + ms == ms;
  }

  // ---------- the compact writer ----------

  lemma Bracketed(open: string, d: string, e: string, close: string)
    ensures open + d + e + [] + close == open + (d + e) + close
  {
    assert open + d + e + [] == open + (d + e);
  }

  lemma PlainMember(name: string, e: string)
    ensures MemberText([], name, [], e) == Quoted(name) + ":" + e
  {
    hide Quoted;
    assert [] + Quoted(name) + [] == Quoted(name);
  }

  /** Every printable value is read back from its compact text. */
  lemma {:induction false} FastTextReads(v: Value)
    requires Printable(v)
    ensures Reads(FastText(v), Retag(v))
    decreases v, 1
  {
    hide Reads;
    match v
    case Null => WordReads(v, "null");
    case Bool(b) => WordReads(v, if b then "true" else "false");
    case Int(i) => NumberReads(i);
    case UInt(u) => NumberReads(u);
    case Str(s) => QuotedReads(s);
    case Arr(es) => FastArrayReads(es);
    case Obj(ms) => FastObjectReads(ms);
  }

  lemma {:induction false} FastArrayReads(es: seq<Value>)
    requires Printable(Arr(es))
    ensures Reads(FastText(Arr(es)), Retag(Arr(es)))
    decreases es, 2
  {
    hide Reads;
    if es == [] {
      EmptyReads();
      assert "[" + [] + "]" == "[]";
    } else {
      var init, last := es[..|es| - 1], es[|es| - 1];
      FastElementsPass(init);
      FastTextReads(last);
      RetagLast(es);
      ArrayReads(FastElementsOpen(init), RetagElements(init), FastText(last), Retag(last), []);
      Bracketed("[", FastElementsOpen(init), FastText(last), "]");
    }
  }

  lemma {:induction false} FastElementsPass(es: seq<Value>)
    requires forall k :: 0 <= k < |es| ==> Printable(es[k])
    ensures PassesElements(FastElementsOpen(es), RetagElements(es))
    decreases es, 1
  {
    hide Reads, PassesElements;
    if es == [] {
      PassesNothing();
    } else {
      var init, last := es[..|es| - 1], es[|es| - 1];
      FastElementsPass(init);
      FastTextReads(last);
      RetagLast(es);
      PassesOneMore(FastElementsOpen(init), RetagElements(init), FastText(last), Retag(last));
    }
  }

  lemma RetagLast(es: seq<Value>)
    requires es != []
    ensures RetagElements(es) == RetagElements(es[..|es| - 1]) + [Retag(es[|es| - 1])]
  {
    hide Retag, RetagElements;
    var n := |es| - 1;
    var init := es[..n];
    forall k | 0 <= k < n ensures RetagElements(es)[k] == RetagElements(init)[k] {
      assert init[k] == es[k];
    }
    ByLast(RetagElements(es), RetagElements(init));
  }

  lemma ByLast<T>(s: seq<T>, init: seq<T>)
    requires |s| == |init| + 1 && forall k :: 0 <= k < |init| ==> s[k] == init[k]
    ensures s == init + [s[|init|]]
  {
  }

  lemma RetagLastOf(ms: seq<Member>)
    requires ms != []
    ensures var last := ms[|ms| - 1]; RetagMembers(ms) == RetagMembers(ms[..|ms| - 1]) + [Member(last.name, Retag(last.value))]
  {
    hide Retag, RetagMembers;
    var n := |ms| - 1;
    var init := ms[..n];
    forall k | 0 <= k < n ensures RetagMembers(ms)[k] == RetagMembers(init)[k] {
      assert init[k] == ms[k];
    }
    ByLast(RetagMembers(ms), RetagMembers(init));
  }

  lemma RetagLastMember(ms: seq<Member>)
    requires Printable(Obj(ms)) && ms != []
    ensures var last := ms[|ms| - 1];
      var m := Member(last.name, Retag(last.value));
      var init := RetagMembers(ms[..|ms| - 1]);
      RetagMembers(ms) == init + [m] && Below(init, [m]) && NamesNulFree(init + [m]) && Sorted(init + [m])
  {
    hide Retag, RetagMembers;
    var last := ms[|ms| - 1];
    var m := Member(last.name, Retag(last.value));
    RetagLastOf(ms);
    RetagSorted(ms);
    SortedSplit(RetagMembers(ms[..|ms| - 1]), m);
  }

  lemma RetagSorted(ms: seq<Member>)
    requires Printable(Obj(ms))
    ensures Sorted(RetagMembers(ms)) && NamesNulFree(RetagMembers(ms))
  {
  }

  lemma {:induction false} FastObjectReads(ms: seq<Member>)
    requires Printable(Obj(ms))
    ensures Reads(FastText(Obj(ms)), Retag(Obj(ms)))
    decreases ms, 2
  {
    hide Reads, PassesMembers, Sorted, NamesNulFree;
    if ms == [] {
      EmptyReads();
      assert "{" + [] + "}" == "{}";
    } else {
      var init, last := ms[..|ms| - 1], ms[|ms| - 1];
      var m := Member(last.name, Retag(last.value));
      PrintablePrefix(ms);
      FastMembersPass(init);
      FastTextReads(last.value);
      RetagLastMember(ms);
      ObjectReads(FastMembersOpen(init), RetagMembers(init), [], m, [], FastText(last.value), []);
      PlainMember(m.name, FastText(last.value));
      Bracketed("{", FastMembersOpen(init), Quoted(m.name) + ":" + FastText(last.value), "}");
    }
  }

  lemma PrintablePrefix(ms: seq<Member>)
    requires ms != [] && Printable(Obj(ms))
    ensures Printable(Obj(ms[..|ms| - 1])) && Printable(ms[|ms| - 1].value) && NulFree(ms[|ms| - 1].name)
  {
    assert ms[..|ms| - 1] + [ms[|ms| - 1]] == ms;
    SortedSplit(ms[..|ms| - 1], ms[|ms| - 1]);
  }

  lemma {:induction false} FastMembersPass(ms: seq<Member>)
    requires Printable(Obj(ms))
    ensures PassesMembers(FastMembersOpen(ms), RetagMembers(ms))
    decreases ms, 1
  {
    hide Reads, PassesMembers;
    if ms == [] {
      PassesNothing();
    } else {
      var init, last := ms[..|ms| - 1], ms[|ms| - 1];
      var m := Member(last.name, Retag(last.value));
      PrintablePrefix(ms);
      FastMembersPass(init);
      FastTextReads(last.value);
      RetagLastMember(ms);
      PassesOneMoreMember(FastMembersOpen(init), RetagMembers(init), [], m, [], FastText(last.value));
      PlainMember(m.name, FastText(last.value));
    }
  }

  /** Parsing the compact document gives the value back. */
  lemma FastRoundTrip(v: Value)
    requires Printable(v)
    ensures Parse(FastText(v) + "\n") == Some(Retag(v))
  {
    FastTextReads(v);
    assert Stop("\n");
  }
}
