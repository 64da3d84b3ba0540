/** Parsed documents are in a normal form, so writing one and parsing it again changes nothing. */
module JsonNormal {
  import opened Common
  import opened JsonValue
  import opened JsonGrammar
  import opened JsonText
  import opened JsonRoundTrip
  import Decimal

  /** Integers tagged by size, member names in order, without duplicates and without NUL. */
  predicate Normal(v: Value) {
    match v
    case Int(i) => LLONG_MIN <= i <= INT_MAX
    case UInt(u) => INT_MAX < u <= ULLONG_MAX
    case Arr(es) => AllNormal(es)
    case Obj(ms) => NormalMembers(ms)
    case _ => true
  }

  predicate AllNormal(es: seq<Value>) { forall k :: 0 <= k < |es| ==> Normal(es[k]) }

  predicate NormalMembers(ms: seq<Member>) {
    Sorted(ms) && forall k :: 0 <= k < |ms| ==> NulFree(ms[k].name) && Normal(ms[k].value)
  }

  lemma StoreIsNormal(ms: seq<Member>, name: string, v: Value)
    requires NormalMembers(ms) && Normal(v)
    ensures NormalMembers(SetMember(ms, CStr(name), v))
  {
    hide SetMember;
    SetMemberSorted(ms, CStr(name), v);
    var r := SetMember(ms, CStr(name), v);
    forall k | 0 <= k < |r| ensures NulFree(r[k].name) && Normal(r[k].value) {
      assert r[k] in r;
    }
  }

  lemma NumberIsNormal(text: string)
    requires IsNumber(text)
    ensures DecodeNumber(text).Some? ==> Normal(DecodeNumber(text).value)
  {
  }

  /** Everything the reader accepts is in normal form. */
  lemma {:induction false} ReadIsNormal(s: string)
    ensures var r := ReadValue(s); r.Read? ==> Normal(r.value)
    decreases |s|, 0
  {
    hide NextToken, DecodeNumber, DecodeString, ReadMembers, ReadArray;
    var t := NextToken(s);
    match t.kind
    case ObjectBegin => MembersAreNormal(t.rest, [], []);
    case ArrayBegin => ArrayIsNormal(t.rest);
    case Number => NumberIsNormal(t.text);
    case _ =>
  }

  lemma {:induction false} ArrayIsNormal(s: string)
    ensures var r := ReadArray(s); r.Read? ==> Normal(r.value)
    decreases |s|, 2
  {
    ElementsAreNormal(SkipSpaces(s), []);
  }

  lemma {:induction false} ElementsAreNormal(s: string, elements: seq<Value>)
    requires AllNormal(elements)
    ensures var r := ReadElements(s, elements); r.Read? ==> Normal(r.value)
    decreases |s|, 1
  {
    hide NextToken, ReadValue;
    ReadIsNormal(s);
    match ReadValue(s)
    case Failed =>
    case Read(v, rest) =>
      assert AllNormal(elements + [v]);
      var t := NextToken(rest);
      if t.kind == ArraySeparator {
        ElementsAreNormal(t.rest, elements + [v]);
      }
  }

  lemma {:induction false} MembersAreNormal(s: string, name: string, members: seq<Member>)
    requires NormalMembers(members)
    ensures var r := ReadMembers(s, name, members); r.Read? ==> Normal(r.value)
    decreases |s|, 1
  {
    hide ReadToken, NextToken, ReadValue, DecodeString, SetMember, NormalMembers;
    var t := NextToken(s);
    if t.kind == String && DecodeString(t.text).Some? {
      var newName := DecodeString(t.text).value;
      var colon := ReadToken(t.rest);
      if colon.kind == MemberSeparator {
        ReadIsNormal(colon.rest);
        var r := ReadValue(colon.rest);
        if r.Read? {
          StoreIsNormal(members, newName, r.value);
          MembersAreNormal(NextToken(r.rest).rest, newName, SetMember(members, CStr(newName), r.value));
        }
      }
    }
  }

  /** Retagging leaves normal values alone. */
  lemma {:induction false} NormalIsTagged(v: Value)
    requires Normal(v)
    ensures Retag(v) == v
  {
    match v
    case Arr(es) =>
      forall k | 0 <= k < |es| ensures Retag(es[k]) == es[k] {
        NormalIsTagged(es[k]);
      }
      assert RetagElements(es) == es;
    case Obj(ms) =>
      forall k | 0 <= k < |ms| ensures Retag(ms[k].value) == ms[k].value {
        NormalIsTagged(ms[k].value);
      }
      assert RetagMembers(ms) == ms;
    case _ =>
  }

  /** Rewriting any document that parses to printable values denotes the same value. */
  lemma Reserialised(document: string)
    requires Parse(document).Some? && Printable(Parse(document).value)
    ensures Parse(FastText(Parse(document).value) + "\n") == Parse(document)
  {
    hide ReadValue, FastText, Printable, Retag;
    ReadIsNormal(document);
    NormalIsTagged(Parse(document).value);
    FastRoundTrip(Parse(document).value);
  }
}
