/** JSON values as jsoncpp holds them, and the order of object members (jsoncpp/json_value.cpp). */
module JsonValue {
  import opened Common

  /**
   * A document value. Object members are listed in the order of std::map<CZString, Value>, which is
   * strcmp's. `Real` stands for the double that sscanf makes of a number token; only its text is kept.
   */
  datatype Value =
    | Null
    | Bool(b: bool)
    | Int(i: int)
    | UInt(u: int)
    | Real(text: string)
    | Str(s: string)
    | Arr(elements: seq<Value>)
    | Obj(members: seq<Member>)

  datatype Member = Member(name: string, value: Value)

  /** A std::string seen through c_str(): the bytes before the first NUL. */
  function CStr(s: string): (r: string)
    ensures NulFree(r) && (NulFree(s) ==> r == s)
  {
    if s == [] || s[0] == '\0' then [] else [s[0]] + CStr(s[1..])
  }

  predicate NulFree(s: string) { forall i :: 0 <= i < |s| ==> s[i] != '\0' }

  /** strcmp(a, b) < 0 on strings without NUL. */
  predicate Less(a: string, b: string) {
    if b == [] then false
    else if a == [] then true
    else if a[0] != b[0] then a[0] < b[0]
    else Less(a[1..], b[1..])
  }

  /** At the first place where the strings differ, one of them ends or has the smaller byte. */
  ghost predicate DiffersAt(a: string, b: string, k: nat) {
    k <= |a| && k < |b| && a[..k] == b[..k] && (k == |a| || a[k] as int < b[k] as int)
  }

  lemma {:induction false} LessByFirstDifference(a: string, b: string)
    ensures Less(a, b) <==> exists k: nat :: DiffersAt(a, b, k)
  {
    if b == [] {
    } else if a == [] || a[0] != b[0] {
      if Less(a, b) {
        assert DiffersAt(a, b, 0);
      } else {
        forall k: nat ensures !DiffersAt(a, b, k) {
          if k > 0 && k <= |a| && k < |b| {
            assert a[..k][0] == a[0] && b[..k][0] == b[0];
          }
        }
      }
    } else {
      LessByFirstDifference(a[1..], b[1..]);
      if Less(a, b) {
        var k: nat :| DiffersAt(a[1..], b[1..], k);
        assert a[..k + 1] == [a[0]] + a[1..][..k] && b[..k + 1] == [b[0]] + b[1..][..k];
        assert DiffersAt(a, b, k + 1);
      }
      if k: nat :| DiffersAt(a, b, k) {
        assert k > 0;
        assert a[1..][..k - 1] == a[..k][1..] && b[1..][..k - 1] == b[..k][1..];
        assert DiffersAt(a[1..], b[1..], k - 1);
      }
    }
  }

  lemma {:induction false} LessAsymmetric(a: string, b: string)
    requires Less(a, b)
    ensures a != b && !Less(b, a)
  {
    if a != [] && a[0] == b[0] {
      LessAsymmetric(a[1..], b[1..]);
    }
  }

  lemma {:induction false} LessTransitive(a: string, b: string, c: string)
    requires Less(a, b) && Less(b, c)
    ensures Less(a, c)
  {
    if a != [] && a[0] == b[0] == c[0] {
      LessTransitive(a[1..], b[1..], c[1..]);
    }
  }

  lemma {:induction false} LessTotal(a: string, b: string)
    ensures a == b || Less(a, b) || Less(b, a)
  {
    if a != [] && b != [] && a[0] == b[0] {
      LessTotal(a[1..], b[1..]);
      assert a == [a[0]] + a[1..] && b == [b[0]] + b[1..];
    }
  }

  /** Every name of `a` comes before every name of `b`. */
  predicate Below(a: seq<Member>, b: seq<Member>) {
    forall i, j :: 0 <= i < |a| && 0 <= j < |b| ==> Less(a[i].name, b[j].name)
  }

  predicate Sorted(ms: seq<Member>) {
    forall i, j :: 0 <= i < j < |ms| ==> Less(ms[i].name, ms[j].name)
  }

  /** `currentValue()[name]` and the assignment through the reference it returns. */
  function SetMember(ms: seq<Member>, name: string, value: Value): seq<Member> {
    if ms == [] || Less(name, ms[0].name) then [Member(name, value)] + ms
    else if ms[0].name == name then [Member(name, value)] + ms[1..]
    else [ms[0]] + SetMember(ms[1..], name, value)
  }

  lemma {:induction false} SetMemberAtEnd(ms: seq<Member>, name: string, value: Value)
    requires Below(ms, [Member(name, value)])
    ensures SetMember(ms, name, value) == ms + [Member(name, value)]
  {
    var m := [Member(name, value)];
    if ms != [] {
      assert Less(ms[0].name, m[0].name);
      LessAsymmetric(ms[0].name, name);
      assert Below(ms[1..], m) by {
        forall i, j | 0 <= i < |ms[1..]| && 0 <= j < |m| ensures Less(ms[1..][i].name, m[j].name) {
          assert ms[1..][i] == ms[i + 1];
        }
      }
      SetMemberAtEnd(ms[1..], name, value);
    }
  }

  /** The list r is ms with this binding of the name and no other. */
  ghost predicate Binds(r: seq<Member>, ms: seq<Member>, name: string, value: Value) {
    && Member(name, value) in r
    && (forall m :: m in r ==> m == Member(name, value) || (m in ms && m.name != name))
    && (forall m :: m in ms && m.name != name ==> m in r)
  }

  /** Storing a member keeps the names in order and the store readable as a map. */
  lemma {:induction false} SetMemberSorted(ms: seq<Member>, name: string, value: Value)
    requires Sorted(ms)
    ensures Sorted(SetMember(ms, name, value)) && Binds(SetMember(ms, name, value), ms, name, value)
  {
    if ms == [] {
    } else if Less(name, ms[0].name) {
      StoreInFront(ms, name, value);
    } else if ms[0].name == name {
      StoreOver(ms, name, value);
    } else {
      LessTotal(name, ms[0].name);
      SetMemberSorted(ms[1..], name, value);
      StoreBehind(ms, name, value, SetMember(ms[1..], name, value));
    }
  }

  lemma StoreInFront(ms: seq<Member>, name: string, value: Value)
    requires Sorted(ms) && ms != [] && Less(name, ms[0].name)
    ensures Sorted([Member(name, value)] + ms) && Binds([Member(name, value)] + ms, ms, name, value)
  {
    hide Less;
    var r := [Member(name, value)] + ms;
    forall j | 0 <= j < |ms| ensures Less(name, ms[j].name) && ms[j].name != name {
      if j > 0 {
        LessTransitive(name, ms[0].name, ms[j].name);
      }
      LessAsymmetric(name, ms[j].name);
    }
    assert r[0] == Member(name, value);
  }

  lemma StoreOver(ms: seq<Member>, name: string, value: Value)
    requires Sorted(ms) && ms != [] && ms[0].name == name
    ensures Sorted([Member(name, value)] + ms[1..]) && Binds([Member(name, value)] + ms[1..], ms, name, value)
  {
    hide Less;
    var r := [Member(name, value)] + ms[1..];
    assert r[0] == Member(name, value);
    forall j | 0 < j < |ms| ensures ms[j].name != name && ms[j] in r {
      LessAsymmetric(name, ms[j].name);
      assert r[j] == ms[j];
    }
  }

  lemma StoreBehind(ms: seq<Member>, name: string, value: Value, rest: seq<Member>)
    requires Sorted(ms) && ms != [] && Less(ms[0].name, name)
    requires Sorted(rest) && Binds(rest, ms[1..], name, value)
    ensures Sorted([ms[0]] + rest) && Binds([ms[0]] + rest, ms, name, value)
  {
    hide Less;
    LessAsymmetric(ms[0].name, name);
    forall j | 0 <= j < |rest| ensures Less(ms[0].name, rest[j].name) {
      assert rest[j] in rest;
      assert rest[j] == Member(name, value) || rest[j] in ms[1..];
    }
    SortedInFront(ms[0], rest);
    assert ms == [ms[0]] + ms[1..];
    BindsBehind(ms[0], ms[1..], rest, name, value);
  }

  lemma SortedInFront(first: Member, rest: seq<Member>)
    requires Sorted(rest) && forall j :: 0 <= j < |rest| ==> Less(first.name, rest[j].name)
    ensures Sorted([first] + rest)
  {
    hide Less;
  }

  lemma BindsBehind(first: Member, ms: seq<Member>, rest: seq<Member>, name: string, value: Value)
    requires Binds(rest, ms, name, value) && first.name != name
    ensures Binds([first] + rest, [first] + ms, name, value)
  {
    var r, all := [first] + rest, [first] + ms;
    assert forall m :: m in r <==> m == first || m in rest;
    assert forall m :: m in all <==> m == first || m in ms;
  }

  /** Values the round trip is about: 64-bit integers that negate, strings without NUL, sorted members. */
  predicate Printable(v: Value) {
    match v
    case Null => true
    case Bool(_) => true
    case Int(i) => LLONG_MIN < i <= LLONG_MAX
    case UInt(u) => 0 <= u <= ULLONG_MAX
    case Real(_) => false
    case Str(s) => NulFree(s)
    case Arr(es) => forall k :: 0 <= k < |es| ==> Printable(es[k])
    case Obj(ms) => Sorted(ms) && forall k :: 0 <= k < |ms| ==> NulFree(ms[k].name) && Printable(ms[k].value)
  }

  /** The reader tags a non-negative integer by its size: Int up to Value::maxInt, UInt above. */
  function Tagged(n: int): Value { if n <= INT_MAX then Int(n) else UInt(n) }

  /** The value with the tags the reader gives. */
  function Retag(v: Value): Value {
    match v
    case Int(i) => Tagged(i)
    case UInt(u) => Tagged(u)
    case Arr(es) => Arr(RetagElements(es))
    case Obj(ms) => Obj(RetagMembers(ms))
    case _ => v
  }

  function RetagElements(es: seq<Value>): (r: seq<Value>)
    ensures |r| == |es| && forall k :: 0 <= k < |es| ==> r[k] == Retag(es[k])
  {
    if es == [] then [] else [Retag(es[0])] + RetagElements(es[1..])
  }

  function RetagMembers(ms: seq<Member>): (r: seq<Member>)
    ensures |r| == |ms| && forall k :: 0 <= k < |ms| ==> r[k] == Member(ms[k].name, Retag(ms[k].value))
  {
    if ms == [] then [] else [Member(ms[0].name, Retag(ms[0].value))] + RetagMembers(ms[1..])
  }

  /** The same value but for the tags of its integers. */
  predicate SameNumbers(v: Value, w: Value) {
    match v
    case Int(i) => w == Int(i) || w == UInt(i)
    case UInt(u) => w == Int(u) || w == UInt(u)
    case Arr(es) => w.Arr? && |w.elements| == |es| && forall k :: 0 <= k < |es| ==> SameNumbers(es[k], w.elements[k])
    case Obj(ms) =>
      w.Obj? && |w.members| == |ms| && forall k :: 0 <= k < |ms| ==> ms[k].name == w.members[k].name && SameNumbers(ms[k].value, w.members[k].value)
    case _ => w == v
  }

  /** Retagging changes no number: it only moves between the two integer tags. */
  lemma {:induction false} RetagKeepsNumbers(v: Value)
    ensures SameNumbers(v, Retag(v))
  {
    match v
    case Arr(es) =>
      forall k | 0 <= k < |es| ensures SameNumbers(es[k], Retag(es[k])) {
        RetagKeepsNumbers(es[k]);
      }
    case Obj(ms) =>
      forall k | 0 <= k < |ms| ensures SameNumbers(ms[k].value, Retag(ms[k].value)) {
        RetagKeepsNumbers(ms[k].value);
      }
    case _ =>
  }
}
