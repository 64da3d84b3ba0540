/** Small shared types. Byte strings of the C sources are `string`s here, one character per byte. */
module Common {

  datatype Option<+T> = None | Some(value: T)

  const INT_MAX: int := 0x7FFF_FFFF
  const LLONG_MAX: int := 0x7FFF_FFFF_FFFF_FFFF
  const LLONG_MIN: int := -0x8000_0000_0000_0000
  const ULLONG_MAX: int := 0xFFFF_FFFF_FFFF_FFFF

  /** The value of a mathematical integer after conversion to a 32-bit signed `int`. */
  function AsInt32(n: int): int {
    (n + 0x8000_0000) % 0x1_0000_0000 - 0x8000_0000
  }

  function Concat<T>(parts: seq<seq<T>>): seq<T> {
    if parts == [] then [] else parts[0] + Concat(parts[1..])
  }

  lemma ConcatNone<T>(parts: seq<seq<T>>)
    requires parts == []
    ensures Concat(parts) == []
  {
  }

  lemma {:induction false} ConcatAppend<T>(parts: seq<seq<T>>, last: seq<T>)
    ensures Concat(parts + [last]) == Concat(parts) + last
  {
    if parts == [] {
      assert parts + [last] == [last];
      assert Concat([last]) == last + Concat([]);
    } else {
      ConcatAppend(parts[1..], last);
      assert (parts + [last])[1..] == parts[1..] + [last];
    }
  }

  lemma {:induction false} ConcatSplit<T>(parts: seq<seq<T>>, k: nat)
    requires k <= |parts|
    ensures Concat(parts) == Concat(parts[..k]) + Concat(parts[k..])
    decreases k
  {
    if k > 0 {
      ConcatSplit(parts[1..], k - 1);
      assert parts[1..][..k - 1] == parts[..k][1..];
      assert parts[1..][k - 1..] == parts[k..];
    } else {
      assert parts[..0] == [] && parts[0..] == parts;
    }
  }

  /** The first n parts and the next are no longer than all of them. */
  lemma {:induction false} ConcatPrefix<T>(parts: seq<seq<T>>, n: nat)
    requires n < |parts|
    ensures |Concat(parts[..n])| + |parts[n]| <= |Concat(parts)|
  {
    ConcatSplit(parts, n);
    var rest := parts[n..];
    assert Concat(rest) == rest[0] + Concat(rest[1..]);
  }

  /** A sequence cut behind the given numbers of elements, as far as it goes. */
  function Cut<T>(s: seq<T>, lengths: seq<nat>): (parts: seq<seq<T>>)
    ensures |parts| == |lengths| + 1 && Concat(parts) == s
    decreases |lengths|
  {
    if lengths == [] then
      assert Concat([s]) == s + Concat([s][1..]);
      [s]
    else
      var n := if lengths[0] < |s| then lengths[0] else |s|;
      var rest := Cut(s[n..], lengths[1..]);
      assert ([s[..n]] + rest)[1..] == rest && s[..n] + s[n..] == s;
      [s[..n]] + rest
  }
}
