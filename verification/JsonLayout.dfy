/** The layout of the indenting JSON writer, as a function of the value (jsoncpp/json_writer.cpp). */
module JsonLayout {
  import opened Common
  import opened JsonValue
  import opened JsonGrammar
  import opened JsonText
  import opened JsonRoundTrip
  import Decimal

  /** Neither a container with something in it. */
  predicate Flat(v: Value) { !(v.Arr? && v.elements != []) && !(v.Obj? && v.members != []) }

  function Spaces(n: nat): (s: string)
    ensures |s| == n && AllSpaces(s) && forall i :: 0 <= i < n ==> s[i] == ' '
  {
    seq(n, _ => ' ')
  }

  /** A new line, indented. */
  function NewLine(indent: nat): (s: string)
    ensures AllSpaces(s)
  {
    "\n" + Spaces(indent)
  }

  /** The width of an array on one line: brackets, separators and elements. */
  function LineLength(texts: seq<string>): int {
    if texts == [] then 4 - 2 else LineLength(texts[..|texts| - 1]) + 2 + |texts[|texts| - 1]|
  }

  /** What the single-line form puts between its brackets. */
  function OnOneLine(texts: seq<string>): string {
    if texts == [] then []
    else OnOneLine(texts[..|texts| - 1]) + (if |texts| == 1 then [] else ", ") + texts[|texts| - 1]
  }

  lemma {:induction false} OneLineWidth(texts: seq<string>)
    requires texts != []
    ensures |"[ " + OnOneLine(texts) + " ]"| == LineLength(texts)
  {
    var init := texts[..|texts| - 1];
    if init != [] {
      OneLineWidth(init);
    } else {
      assert LineLength(init) == 2;
    }
  }

  /** The compact texts of the elements. */
  function Texts(es: seq<Value>): (r: seq<string>)
    ensures |r| == |es| && forall k :: 0 <= k < |es| ==> r[k] == FastText(es[k])
  {
    if es == [] then [] else Texts(es[..|es| - 1]) + [FastText(es[|es| - 1])]
  }

  /** Arrays that are never tried on one line, whose right margin is column 74. */
  predicate Crowded(es: seq<Value>) {
    |es| * 3 >= 74 || exists k :: 0 <= k < |es| && !Flat(es[k])
  }

  /** An array has one element to a line if it is crowded or would reach the right margin. */
  predicate Broken(es: seq<Value>) { Crowded(es) || LineLength(Texts(es)) >= 74 }

  /**
   * The text of a value that starts on a line with this indentation. Containers with something in them have one item
   * to a line, three columns further in, and their closing bracket on a line of its own; arrays that fit go on one line.
   */
  function Styled(v: Value, indent: nat): string
    decreases v, 0
  {
    if Flat(v) then FastText(v)
    else match v
      case Arr(es) =>
        if Broken(es) then "[" + StyledElements(es, indent + 3) + NewLine(indent) + "]"
        else "[ " + OnOneLine(Texts(es)) + " ]"
      case Obj(ms) => "{" + StyledMembers(ms, indent + 3) + NewLine(indent) + "}"
  }

  function StyledElements(es: seq<Value>, indent: nat): string
    requires es != []
    decreases es, 1
  {
    StyledElementsOpen(es[..|es| - 1], indent) + NewLine(indent) + Styled(es[|es| - 1], indent)
  }

  /** Elements that more elements follow: each has its comma. */
  function StyledElementsOpen(es: seq<Value>, indent: nat): string
    decreases es, 2
  {
    if es == [] then [] else StyledElements(es, indent) + ","
  }

  function StyledMembers(ms: seq<Member>, indent: nat): string
    requires ms != []
    decreases ms, 1
  {
    var m := ms[|ms| - 1];
    StyledMembersOpen(ms[..|ms| - 1], indent) + (NewLine(indent) + Quoted(m.name) + " : " + Styled(m.value, indent))
  }

  function StyledMembersOpen(ms: seq<Member>, indent: nat): string
    decreases ms, 2
  {
    if ms == [] then [] else StyledMembers(ms, indent) + ","
  }

  // ---------- reading it back ----------

  /** A text that is read back as the value. */
  ghost predicate Denotes(text: string, v: Value) { Reads(text, Retag(v)) }

  ghost predicate DenoteAll(texts: seq<string>, es: seq<Value>) {
    |texts| == |es| && forall k :: 0 <= k < |es| ==> Denotes(texts[k], es[k])
  }

  lemma SpaceDenotes(space: string, d: string, v: Value)
    requires AllSpaces(space) && Denotes(d, v)
    ensures Denotes(space + d, v)
  {
    SpaceThenReads(space, d, Retag(v));
  }

  lemma PassesNext(d: string, es: seq<Value>, k: nat, e: string)
    requires k < |es| && PassesElements(d, RetagElements(es[..k])) && Denotes(e, es[k])
    ensures PassesElements(d + e + ",", RetagElements(es[..k + 1]))
  {
    hide Reads, PassesElements;
    PassesOneMore(d, RetagElements(es[..k]), e, Retag(es[k]));
    RetagLast(es[..k + 1]);
    assert es[..k + 1][..k] == es[..k];
  }

  lemma ArrayDenotes(d: string, es: seq<Value>, e: string, tail: string)
    requires es != [] && PassesElements(d, RetagElements(es[..|es| - 1])) && Denotes(e, es[|es| - 1]) && AllSpaces(tail)
    ensures Denotes("[" + d + e + tail + "]", Arr(es))
  {
    hide Reads, PassesElements, AllSpaces;
    ArrayReads(d, RetagElements(es[..|es| - 1]), e, Retag(es[|es| - 1]), tail);
    RetagLast(es);
  }

  function OneLineOpen(texts: seq<string>): string {
    if texts == [] then [] else " " + OnOneLine(texts) + ","
  }

  lemma {:induction false} OneLinePasses(texts: seq<string>, es: seq<Value>)
    requires DenoteAll(texts, es)
    ensures PassesElements(OneLineOpen(texts), RetagElements(es))
  {
    hide Denotes, PassesElements;
    if es == [] {
      PassesNothing();
    } else {
      var k := |es| - 1;
      OneLinePasses(texts[..k], es[..k]);
      assert AllSpaces(" ");
      SpaceDenotes(" ", texts[k], es[k]);
      PassesNext(OneLineOpen(texts[..k]), es, k, " " + texts[k]);
      assert es[..k + 1] == es;
      OneLineSplit(texts);
    }
  }

  lemma OneLineSplit(texts: seq<string>)
    requires texts != []
    ensures var k := |texts| - 1;
      " " + OnOneLine(texts) == OneLineOpen(texts[..k]) + (" " + texts[k])
  {
    hide OnOneLine;
    var k := |texts| - 1;
    OnOneLineLast(texts);
    if k > 0 {
      SpaceComma(OnOneLine(texts[..k]), texts[k]);
    }
  }

  lemma OnOneLineLast(texts: seq<string>)
    requires texts != []
    ensures var k := |texts| - 1;
      OnOneLine(texts) == if k == 0 then texts[0] else OnOneLine(texts[..k]) + ", " + texts[k]
  {
  }

  lemma SpaceComma(a: string, b: string)
    ensures " " + (a + ", " + b) == " " + a + "," + (" " + b)
  {
    assert ", " == "," + " ";
  }

  lemma OneLineDenotes(texts: seq<string>, es: seq<Value>)
    requires es != [] && DenoteAll(texts, es)
    ensures Denotes("[ " + OnOneLine(texts) + " ]", Arr(es))
  {
    hide Denotes, PassesElements, AllSpaces, OnOneLine, OneLineOpen;
    var k := |es| - 1;
    OneLinePasses(texts[..k], es[..k]);
    NoSpace();
    SpaceDenotes(" ", texts[k], es[k]);
    ArrayDenotes(OneLineOpen(texts[..k]), es, " " + texts[k], " ");
    OneLineSplit(texts);
    OneLineGroups(OneLineOpen(texts[..k]), " " + texts[k], OnOneLine(texts));
  }

  lemma OneLineGroups(open: string, last: string, all: string)
    requires " " + all == open + last
    ensures "[" + open + last + " " + "]" == "[ " + all + " ]"
  {
    assert "[" + open + last + " " + "]" == "[" + (open + last) + " ]";
    assert "[" + (" " + all) + " ]" == "[ " + all + " ]";
  }

  lemma PassesNextMember(d: string, ms: seq<Member>, k: nat, lead: string, e: string)
    requires k < |ms| && Printable(Obj(ms)) && PassesMembers(d, RetagMembers(ms[..k]))
    requires AllSpaces(lead) && Denotes(e, ms[k].value)
    ensures PassesMembers(d + MemberText(lead, ms[k].name, " ", e) + ",", RetagMembers(ms[..k + 1]))
  {
    hide Reads, PassesMembers, MemberText;
    var m := Member(ms[k].name, Retag(ms[k].value));
    assert Printable(Obj(ms[..k + 1]));
    RetagLastMember(ms[..k + 1]);
    assert ms[..k + 1][..k] == ms[..k];
    assert NulFree(m.name);
    PassesOneMoreMember(d, RetagMembers(ms[..k]), lead, m, " ", e);
  }

  lemma ObjectDenotes(d: string, ms: seq<Member>, space: string, e: string, tail: string)
    requires ms != [] && Printable(Obj(ms)) && PassesMembers(d, RetagMembers(ms[..|ms| - 1]))
    requires AllSpaces(space) && AllSpaces(tail) && Denotes(e, ms[|ms| - 1].value)
    ensures Denotes("{" + d + MemberText(space, ms[|ms| - 1].name, " ", e) + tail + "}", Obj(ms))
  {
    hide Reads, PassesMembers, MemberText, Printable, Sorted, NamesNulFree;
    var last := ms[|ms| - 1];
    var m := Member(last.name, Retag(last.value));
    RetagLastMember(ms);
    assert AllSpaces(" ");
    ObjectReads(d, RetagMembers(ms[..|ms| - 1]), space, m, " ", e, tail);
  }

  /** The styled text of every printable value, at any indentation, is read back as that value. */
  lemma {:induction false} StyledReads(v: Value, indent: nat)
    requires Printable(v)
    ensures Denotes(Styled(v, indent), v)
    decreases v, 3
  {
    hide Denotes, Broken, StyledElements, StyledMembers;
    if Flat(v) {
      FastDenotes(v);
    } else {
      match v
      case Arr(es) => StyledArrayReads(es, indent);
      case Obj(ms) => StyledObjectReads(ms, indent);
      case _ => FastDenotes(v);
    }
  }

  lemma FastDenotes(v: Value)
    requires Printable(v)
    ensures Denotes(FastText(v), v)
  {
    FastTextReads(v);
  }

  lemma {:induction false} StyledArrayReads(es: seq<Value>, indent: nat)
    requires es != [] && Printable(Arr(es))
    ensures Denotes(Styled(Arr(es), indent), Arr(es))
    decreases es, 2
  {
    hide Denotes, Broken, PassesElements, AllSpaces, DenoteAll, StyledElementsOpen, OnOneLine, Printable;
    if Broken(es) {
      var k := |es| - 1;
      var n := indent + 3;
      PrintableElements(es);
      ElementsPass(es[..k], n);
      StyledReads(es[k], n);
      SpaceDenotes(NewLine(n), Styled(es[k], n), es[k]);
      ArrayDenotes(StyledElementsOpen(es[..k], n), es, NewLine(n) + Styled(es[k], n), NewLine(indent));
      Bracket("[", StyledElementsOpen(es[..k], n), NewLine(n), Styled(es[k], n), NewLine(indent), "]");
    } else {
      TextsDenote(es);
      OneLineDenotes(Texts(es), es);
    }
  }

  lemma PrintableElements(es: seq<Value>)
    requires Printable(Arr(es))
    ensures forall k :: 0 <= k < |es| ==> Printable(es[k])
  {
  }

  lemma TextsDenote(es: seq<Value>)
    requires Printable(Arr(es))
    ensures DenoteAll(Texts(es), es)
  {
    hide Denotes, Printable;
    PrintableElements(es);
    forall k | 0 <= k < |es| ensures Denotes(Texts(es)[k], es[k]) {
      FastDenotes(es[k]);
    }
  }

  lemma Bracket(open: string, d: string, a: string, b: string, tail: string, close: string)
    ensures open + d + (a + b) + tail + close == open + (d + a + b) + tail + close
  {
    assert d + (a + b) == d + a + b;
    assert open + d + (a + b) == open + (d + a + b);
  }

  lemma {:induction false} ElementsPass(es: seq<Value>, indent: nat)
    requires forall k :: 0 <= k < |es| ==> Printable(es[k])
    ensures PassesElements(StyledElementsOpen(es, indent), RetagElements(es))
    decreases es, 4
  {
    hide Denotes, PassesElements, Printable, AllSpaces, Styled, StyledElementsOpen, RetagElements, NewLine;
    if es == [] {
      NoElements(indent);
      PassesNothing();
    } else {
      OpenNext(es, indent);
      var k := |es| - 1;
      var lead, text := NewLine(indent), Styled(es[k], indent);
      ElementsPass(es[..k], indent);
      StyledReads(es[k], indent);
      SpaceDenotes(lead, text, es[k]);
      PassesNext(StyledElementsOpen(es[..k], indent), es, k, lead + text);
      assert es[..k + 1] == es;
    }
  }

  lemma NoElements(indent: nat)
    ensures StyledElementsOpen([], indent) == [] && RetagElements([]) == []
  {
  }

  lemma OpenNext(es: seq<Value>, indent: nat)
    requires es != []
    ensures var k := |es| - 1;
      StyledElementsOpen(es, indent) == StyledElementsOpen(es[..k], indent) + (NewLine(indent) + Styled(es[k], indent)) + ","
  {
    hide Styled, NewLine, StyledElementsOpen, StyledElements;
    var k := |es| - 1;
    OpenOf(es, indent);
    LastElement(es, indent);
    Grouped(StyledElementsOpen(es[..k], indent), NewLine(indent), Styled(es[k], indent), []);
  }

  lemma OpenOf(es: seq<Value>, indent: nat)
    requires es != []
    ensures StyledElementsOpen(es, indent) == StyledElements(es, indent) + ","
  {
    hide StyledElements;
  }

  lemma LastElement(es: seq<Value>, indent: nat)
    requires es != []
    ensures var k := |es| - 1;
      StyledElements(es, indent) == StyledElementsOpen(es[..k], indent) + NewLine(indent) + Styled(es[k], indent)
  {
    hide StyledElementsOpen, Styled, NewLine;
  }

  /** A member between its lead and the comma, as the styled text has it. */
  lemma StyledMember(lead: string, name: string, text: string)
    ensures lead + Quoted(name) + " : " + text == MemberText(lead, name, " ", " " + text)
  {
    hide Quoted;
    assert " : " + text == " " + ":" + (" " + text);
    assert lead + Quoted(name) + " : " + text == lead + Quoted(name) + (" : " + text);
  }

  lemma {:induction false} StyledObjectReads(ms: seq<Member>, indent: nat)
    requires ms != [] && Printable(Obj(ms))
    ensures Denotes(Styled(Obj(ms), indent), Obj(ms))
    decreases ms, 2
  {
    hide Denotes, PassesMembers, AllSpaces, MemberText, Printable, NulFree, StyledMembersOpen, Quoted;
    var k := |ms| - 1;
    var m, n := ms[k], indent + 3;
    PrintableMember(ms, k);
    PrintablePrefix(ms);
    MembersPass(ms[..k], n);
    StyledReads(m.value, n);
    NoSpace();
    SpaceDenotes(" ", Styled(m.value, n), m.value);
    ObjectDenotes(StyledMembersOpen(ms[..k], n), ms, NewLine(n), " " + Styled(m.value, n), NewLine(indent));
    StyledMember(NewLine(n), m.name, Styled(m.value, n));
    Brace(StyledMembersOpen(ms[..k], n), MemberText(NewLine(n), m.name, " ", " " + Styled(m.value, n)), NewLine(indent));
  }

  lemma Brace(d: string, m: string, tail: string)
    ensures "{" + d + m + tail + "}" == "{" + (d + m) + tail + "}"
  {
    assert "{" + d + m == "{" + (d + m);
  }

  lemma {:induction false} MembersPass(ms: seq<Member>, indent: nat)
    requires Printable(Obj(ms))
    ensures PassesMembers(StyledMembersOpen(ms, indent), RetagMembers(ms))
    decreases ms, 4
  {
    hide Denotes, PassesMembers, Printable, AllSpaces, MemberText, Quoted;
    if ms == [] {
      PassesNothing();
    } else {
      var k := |ms| - 1;
      var m, lead := ms[k], NewLine(indent);
      PrintableMember(ms, k);
      PrintablePrefix(ms);
      MembersPass(ms[..k], indent);
      StyledReads(m.value, indent);
      NoSpace();
      SpaceDenotes(" ", Styled(m.value, indent), m.value);
      PassesNextMember(StyledMembersOpen(ms[..k], indent), ms, k, lead, " " + Styled(m.value, indent));
      StyledMember(lead, m.name, Styled(m.value, indent));
      assert ms[..k + 1] == ms;
    }
  }

  lemma PrintableMember(ms: seq<Member>, k: nat)
    requires Printable(Obj(ms)) && k < |ms|
    ensures NulFree(ms[k].name) && Printable(ms[k].value)
  {
  }
}
