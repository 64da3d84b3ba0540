/** The indenting JSON writer (jsoncpp/json_writer.cpp). */
module JsonStyledWriter {
  import opened Common
  import opened JsonValue
  import opened JsonGrammar
  import opened JsonText
  import opened JsonRoundTrip
  import opened JsonWriter
  import opened JsonLayout
  import Decimal

  const RIGHT_MARGIN := 74
  const INDENT_SIZE := 3

  /** What writeIndent appends to a document. */
  function Indentation(document: string, indentString: string): string {
    if document == [] then indentString
    else if document[|document| - 1] == ' ' then []
    else if document[|document| - 1] == '\n' then indentString
    else "\n" + indentString
  }

  /** The text ends in a byte that is neither a blank nor a line feed. */
  predicate Solid(s: string) { s != [] && s[|s| - 1] != ' ' && s[|s| - 1] != '\n' }

  lemma SolidEnd(a: string, b: string)
    requires Solid(b)
    ensures Solid(a + b)
  {
  }

  /** Behind such a text the next indentation starts a new line. */
  lemma SolidIndents(document: string, indentString: string)
    requires Solid(document)
    ensures Indentation(document, indentString) == "\n" + indentString
  {
  }

  lemma {:induction false} StyledIsSolid(v: Value, indent: nat)
    requires Printable(v)
    ensures Solid(Styled(v, indent))
  {
    if Flat(v) {
      FlatIsSolid(v);
    }
  }

  lemma FlatIsSolid(v: Value)
    requires Printable(v) && Flat(v)
    ensures Solid(FastText(v))
  {
    hide Quoted;
    match v
    case Int(i) => SpellingIsSolid(i);
    case UInt(u) => SpellingIsSolid(u);
    case Str(s) => QuotedIsSolid(CStr(s));
    case _ =>
  }

  lemma SpellingIsSolid(n: int)
    ensures Solid(Decimal.Spelling(n))
  {
    hide Decimal.Numeral, Decimal.Value;
    Decimal.SpellingShape(n);
    var s := Decimal.Spelling(n);
    assert Decimal.IsDigit(s[|s| - 1]) by {
      if n < 0 {
        assert s[|s| - 1] == s[1..][|s| - 2];
      } else {
        assert s[0..] == s;
      }
    }
  }

  lemma QuotedIsSolid(s: string)
    ensures Solid(Quoted(s))
  {
  }

  class StyledWriter {
    var document: string
    var indentString: string
    var childValues: seq<string>
    var addChildValues: bool

    constructor ()
      ensures Valid()
    {
      document, indentString, childValues, addChildValues := [], [], [], false;
    }

    predicate Valid()
      reads this
    {
      indentString == Spaces(|indentString|)
    }

    /** Where a container may be opened: at the start of the document, or behind a blank, which is where an
        indentation or the colon of a member ends. */
    predicate Ready()
      reads this
    {
      if document == [] then indentString == [] else document[|document| - 1] == ' '
    }

    /** The document has the layout of the value, and is read back as it. */
    method Write(root: Value) returns (text: string)
      requires Printable(root)
      modifies this
      ensures text == document == Styled(root, 0) + "\n"
      ensures Parse(text) == Some(Retag(root))
    {
      hide Styled;
      document := [];
      addChildValues := false;
      indentString := [];
      WriteValue(root);
      assert [] + Styled(root, 0) == Styled(root, 0);
      document := document + "\n";
      text := document;
      StyledReads(root, 0);
      assert Stop("\n");
      assert ReadValue(Styled(root, 0) + "\n") == Read(Retag(root), "\n");
    }

    method WriteValue(value: Value)
      requires Valid() && Printable(value) && (addChildValues ==> Flat(value)) && (!addChildValues && !Flat(value) ==> Ready())
      modifies this
      ensures Valid() && indentString == old(indentString) && addChildValues == old(addChildValues)
      ensures addChildValues ==> document == old(document) && childValues == old(childValues) + [FastText(value)]
      ensures !addChildValues ==> document == old(document) + Styled(value, |indentString|)
      decreases value, 2
    {
      hide StyledElements, StyledMembers, Broken, Quoted;
      match value
      case Null =>
        PushValue("null");
      case Int(i) =>
        var digits := IntToString(i);
        PushValue(digits);
      case UInt(u) =>
        var digits := UintValueToString(u);
        PushValue(digits);
      case Str(s) =>
        var quoted := QuotedString(CStr(s));
        PushValue(quoted);
      case Bool(b) =>
        PushValue(if b then "true" else "false");
      case Arr(es) =>
        WriteArrayValue(es);
      case Obj(ms) =>
        if ms == [] {
          EmptyText();
          PushValue("{}");
        } else {
          WriteMembers(ms);
        }
    }

    method PushValue(text: string)
      modifies this`document, this`childValues
      ensures addChildValues ==> document == old(document) && childValues == old(childValues) + [text]
      ensures !addChildValues ==> document == old(document) + text && childValues == old(childValues)
    {
      if addChildValues {
        childValues := childValues + [text];
      } else {
        document := document + text;
      }
    }

    method WriteIndent()
      modifies this`document
      ensures document == old(document) + Indentation(old(document), indentString)
    {
      if document != [] {
        var last := document[|document| - 1];
        if last == ' ' {
          return;
        }
        if last != '\n' {
          document := document + "\n";
        }
      }
      document := document + indentString;
    }

    method WriteWithIndent(text: string)
      modifies this`document
      ensures document == old(document) + Indentation(old(document), indentString) + text
    {
      WriteIndent();
      document := document + text;
    }

    method Indent()
      requires Valid()
      modifies this`indentString
      ensures Valid() && |indentString| == |old(indentString)| + INDENT_SIZE
    {
      indentString := indentString + seq(INDENT_SIZE, _ => ' ');
    }

    method Unindent()
      requires Valid() && |indentString| >= INDENT_SIZE
      modifies this`indentString
      ensures Valid() && |indentString| == |old(indentString)| - INDENT_SIZE
    {
      indentString := indentString[..|indentString| - INDENT_SIZE];
    }

    /** Opens a container, where no indentation is needed. */
    method Open(bracket: string)
      requires Valid() && Ready() && Solid(bracket)
      modifies this`document, this`indentString
      ensures Valid() && |indentString| == |old(indentString)| + INDENT_SIZE
      ensures document == old(document) + bracket && Solid(document)
    {
      WriteWithIndent(bracket);
      assert old(document) + [] + bracket == old(document) + bracket;
      Indent();
    }

    /** Closes it on a line of its own. */
    method Close(bracket: string)
      requires Valid() && |indentString| >= INDENT_SIZE && Solid(document)
      modifies this`document, this`indentString
      ensures Valid() && |indentString| == |old(indentString)| - INDENT_SIZE
      ensures document == old(document) + NewLine(|indentString|) + bracket
    {
      Unindent();
      SolidIndents(document, indentString);
      WriteWithIndent(bracket);
    }

    /** Decides on the layout, and keeps the texts of the elements when it had to look at them. */
    method IsMultineArray(es: seq<Value>) returns (isMultiLine: bool)
      requires Valid() && !addChildValues
      requires forall k :: 0 <= k < |es| ==> Printable(es[k])
      modifies this
      ensures Valid() && indentString == old(indentString) && document == old(document) && !addChildValues
      ensures isMultiLine == Broken(es) && childValues == (if Crowded(es) then [] else Texts(es))
      decreases es, 0
    {
      hide Printable, Styled, FastText;
      var size := |es|;
      isMultiLine := size * 3 >= RIGHT_MARGIN;
      childValues := [];
      var index := 0;
      while index < size && !isMultiLine
        invariant 0 <= index <= size
        invariant isMultiLine == (size * 3 >= RIGHT_MARGIN || exists k :: 0 <= k < index && !Flat(es[k]))
      {
        isMultiLine := !Flat(es[index]);
        index := index + 1;
      }
      if !isMultiLine {
        addChildValues := true;
        var lineLength := 4 + (size - 1) * 2;
        for i := 0 to size
          invariant Valid() && indentString == old(indentString) && document == old(document) && addChildValues
          invariant childValues == Texts(es[..i])
          invariant lineLength == LineLength(childValues) + 2 * (size - i)
        {
          ghost var earlier := childValues;
          WriteValue(es[i]);
          assert childValues[..|childValues| - 1] == earlier;
          assert es[..i + 1][..i] == es[..i];
          lineLength := lineLength + |childValues[i]|;
        }
        assert es[..size] == es;
        addChildValues := false;
        isMultiLine := lineLength >= RIGHT_MARGIN;
      }
    }

    method WriteArrayValue(es: seq<Value>)
      requires Valid() && Printable(Arr(es)) && (addChildValues ==> es == []) && (!addChildValues && es != [] ==> Ready())
      modifies this
      ensures Valid() && indentString == old(indentString) && addChildValues == old(addChildValues)
      ensures addChildValues ==> document == old(document) && childValues == old(childValues) + [FastText(Arr(es))]
      ensures !addChildValues ==> document == old(document) + Styled(Arr(es), |indentString|)
      decreases es, 2
    {
      hide Broken, StyledElements;
      if es == [] {
        EmptyText();
        PushValue("[]");
      } else {
        var isArrayMultiLine := IsMultineArray(es);
        if isArrayMultiLine {
          WriteOnManyLines(es);
        } else {
          RoomForAll(es);
          WriteOnOneLine(es);
        }
      }
    }

    /** The single-line form stays within the right margin. */
    method WriteOnOneLine(es: seq<Value>)
      requires es != [] && childValues == Texts(es) && LineLength(childValues) < RIGHT_MARGIN
      modifies this`document
      ensures document == old(document) + ("[ " + OnOneLine(Texts(es)) + " ]") && |document| - |old(document)| < RIGHT_MARGIN
    {
      hide OnOneLine, LineLength, Texts;
      NothingOnOneLine();
      document := document + "[ ";
      for index := 0 to |es|
        invariant document == old(document) + ("[ " + OnOneLine(childValues[..index]))
      {
        OneMoreOnLine(old(document), childValues, index);
        if index > 0 {
          document := document + ", ";
        }
        document := document + childValues[index];
      }
      assert childValues[..|es|] == childValues;
      document := document + " ]";
      assert document == old(document) + ("[ " + OnOneLine(childValues) + " ]");
      OneLineWidth(childValues);
    }

    method WriteOnManyLines(es: seq<Value>)
      requires Valid() && Ready() && es != [] && !addChildValues && forall k :: 0 <= k < |es| ==> Printable(es[k])
      requires childValues == if Crowded(es) then [] else Texts(es)
      modifies this
      ensures Valid() && indentString == old(indentString) && !addChildValues
      ensures document == old(document) + ("[" + StyledElements(es, |indentString| + INDENT_SIZE) + NewLine(|indentString|) + "]")
      decreases es, 1
    {
      hide Printable, StyledElements, Crowded, Styled, Texts;
      Open("[");
      WriteLines(es, childValues != []);
      Close("]");
      FourPieces(old(document), "[", StyledElements(es, |indentString| + INDENT_SIZE), NewLine(|indentString|), "]");
    }

    /** The loop over the elements. */
    method WriteLines(es: seq<Value>, hasChildValue: bool)
      requires Valid() && es != [] && !addChildValues && Solid(document) && |indentString| >= INDENT_SIZE
      requires forall k :: 0 <= k < |es| ==> Printable(es[k])
      requires hasChildValue == !Crowded(es) && (hasChildValue ==> childValues == Texts(es))
      modifies this
      ensures Valid() && indentString == old(indentString) && !addChildValues
      ensures document == old(document) + StyledElements(es, |indentString|) && Solid(document)
      decreases es, 0, 1
    {
      hide Printable, Styled, Texts, Crowded;
      var index := 0;
      assert es[..0] == [];
      assert document + [] == document;
      while true
        invariant 0 <= index < |es| && Valid() && indentString == old(indentString) && !addChildValues && Solid(document)
        invariant hasChildValue ==> childValues == Texts(es)
        invariant document == old(document) + StyledElementsOpen(es[..index], |indentString|)
        decreases |es| - index
      {
        ghost var open := StyledElementsOpen(es[..index], |indentString|);
        WriteElement(es, index, hasChildValue);
        index := index + 1;
        assert es[..index][..index - 1] == es[..index - 1];
        ElementAdded(old(document), open, NewLine(|indentString|), Styled(es[index - 1], |indentString|));
        if index == |es| {
          assert es[..index] == es;
          break;
        }
        document := document + ",";
        assert old(document) + StyledElements(es[..index], |indentString|) + "," ==
          old(document) + (StyledElements(es[..index], |indentString|) + ",");
      }
    }

    method WriteElement(es: seq<Value>, index: nat, hasChildValue: bool)
      requires Valid() && index < |es| && Printable(es[index]) && !addChildValues && Solid(document) && |indentString| >= INDENT_SIZE
      requires hasChildValue == !Crowded(es) && (hasChildValue ==> childValues == Texts(es))
      modifies this
      ensures Valid() && indentString == old(indentString) && !addChildValues
      ensures hasChildValue ==> childValues == old(childValues)
      ensures document == old(document) + (NewLine(|indentString|) + Styled(es[index], |indentString|)) && Solid(document)
      decreases es, 0, 0
    {
      hide Printable, Styled, Crowded, Texts, Solid, Indentation, Flat;
      SolidIndents(document, indentString);
      StyledIsSolid(es[index], |indentString|);
      if hasChildValue {
        FlatElement(es, index, |indentString|);
        WriteWithIndent(childValues[index]);
      } else {
        WriteIndent();
        assert document[|document| - 1] == ' ';
        WriteValue(es[index]);
      }
      assert document == old(document) + NewLine(|indentString|) + Styled(es[index], |indentString|);
      SolidEnd(old(document) + NewLine(|indentString|), Styled(es[index], |indentString|));
    }

    method WriteMembers(ms: seq<Member>)
      requires Valid() && Ready() && ms != [] && Printable(Obj(ms)) && !addChildValues
      modifies this
      ensures Valid() && indentString == old(indentString) && !addChildValues
      ensures document == old(document) + ("{" + StyledMembers(ms, |indentString| + INDENT_SIZE) + NewLine(|indentString|) + "}")
      decreases ms, 1
    {
      hide Printable, StyledMembers, Styled;
      Open("{");
      WriteMemberLines(ms);
      Close("}");
      FourPieces(old(document), "{", StyledMembers(ms, |indentString| + INDENT_SIZE), NewLine(|indentString|), "}");
    }

    /** The loop over the members. */
    method WriteMemberLines(ms: seq<Member>)
      requires Valid() && ms != [] && Printable(Obj(ms)) && !addChildValues && Solid(document) && |indentString| >= INDENT_SIZE
      modifies this
      ensures Valid() && indentString == old(indentString) && !addChildValues
      ensures document == old(document) + StyledMembers(ms, |indentString|) && Solid(document)
      decreases ms, 0, 1
    {
      hide Printable, NulFree, Styled, Quoted;
      var it := 0;
      assert ms[..0] == [];
      assert document + [] == document;
      while true
        invariant 0 <= it < |ms| && Valid() && indentString == old(indentString) && !addChildValues && Solid(document)
        invariant document == old(document) + StyledMembersOpen(ms[..it], |indentString|)
        decreases |ms| - it
      {
        ghost var open := StyledMembersOpen(ms[..it], |indentString|);
        PrintableMember(ms, it);
        WriteMember(ms, it);
        it := it + 1;
        assert ms[..it][..it - 1] == ms[..it - 1];
        assert old(document) + open + MemberLine(ms[it - 1], |indentString|) == old(document) + (open + MemberLine(ms[it - 1], |indentString|));
        if it == |ms| {
          assert ms[..it] == ms;
          break;
        }
        document := document + ",";
        assert old(document) + StyledMembers(ms[..it], |indentString|) + "," ==
          old(document) + (StyledMembers(ms[..it], |indentString|) + ",");
      }
    }

    method WriteMember(ms: seq<Member>, it: nat)
      requires Valid() && it < |ms| && NulFree(ms[it].name) && Printable(ms[it].value) && !addChildValues && Solid(document)
      modifies this
      ensures Valid() && indentString == old(indentString) && !addChildValues
      ensures document == old(document) + MemberLine(ms[it], |indentString|) && Solid(document)
      decreases ms, 0, 0
    {
      hide Printable, NulFree, Quoted, Styled;
      SolidIndents(document, indentString);
      StyledIsSolid(ms[it].value, |indentString|);
      var name := QuotedString(ms[it].name);
      WriteWithIndent(name);
      document := document + " : ";
      WriteValue(ms[it].value);
      MemberAdded(old(document), NewLine(|indentString|), name, Styled(ms[it].value, |indentString|));
      SolidEnd(old(document) + NewLine(|indentString|) + name + " : ", Styled(ms[it].value, |indentString|));
    }
  }

  function MemberLine(m: Member, indent: nat): string { NewLine(indent) + Quoted(m.name) + " : " + Styled(m.value, indent) }

  lemma FlatElement(es: seq<Value>, k: nat, indent: nat)
    requires k < |es| && !Crowded(es)
    ensures Styled(es[k], indent) == Texts(es)[k]
  {
    hide FastText;
  }

  lemma NothingOnOneLine()
    ensures OnOneLine([]) == []
  {
  }

  lemma OneMoreOnLine(a: string, texts: seq<string>, k: nat)
    requires k < |texts|
    ensures var before := a + ("[ " + OnOneLine(texts[..k]));
      (if k > 0 then before + ", " else before) + texts[k] == a + ("[ " + OnOneLine(texts[..k + 1]))
  {
    hide OnOneLine;
    OnOneLineLast(texts[..k + 1]);
    assert texts[..k + 1][..k] == texts[..k];
    if k == 0 {
      NothingOnOneLine();
      assert "[ " + [] == "[ ";
      assert a + "[ " + texts[0] == a + ("[ " + texts[0]);
    } else {
      assert a + ("[ " + OnOneLine(texts[..k])) + ", " + texts[k] == a + ("[ " + (OnOneLine(texts[..k]) + ", " + texts[k]));
    }
  }

  lemma EmptyText()
    ensures FastText(Arr([])) == "[]" && FastText(Obj([])) == "{}"
    ensures forall n: nat :: Styled(Arr([]), n) == "[]" && Styled(Obj([]), n) == "{}"
  {
  }

  lemma RoomForAll(es: seq<Value>)
    requires !Broken(es)
    ensures !Crowded(es) && LineLength(Texts(es)) < RIGHT_MARGIN
  {
  }

  lemma FourPieces(a: string, open: string, b: string, c: string, close: string)
    ensures a + open + b + c + close == a + (open + b + c + close)
  {
    assert a + open + b + c == a + (open + b + c);
  }

  lemma ElementAdded(a: string, open: string, line: string, text: string)
    ensures a + open + (line + text) == a + (open + line + text)
  {
    assert open + line + text == open + (line + text);
  }

  lemma MemberAdded(a: string, line: string, name: string, text: string)
    ensures a + line + name + " : " + text == a + (line + name + " : " + text)
  {
    assert a + line + name + " : " == a + (line + name + " : ");
  }
}
