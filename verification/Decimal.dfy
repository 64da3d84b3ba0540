/** Decimal numerals and the conversions between them and 64-bit integers
    (redis/read.c, redis/sds.c, redis/hiredis.c, log/log_stream.cc, jsoncpp/json_tool.h). */
module Decimal {
  import opened Common

  predicate IsDigit(c: char) { '0' <= c <= '9' }

  predicate AllDigits(s: string) { forall i :: 0 <= i < |s| ==> IsDigit(s[i]) }

  function DigitChar(d: int): (c: char)
    requires 0 <= d < 10
    ensures IsDigit(c) && DigitValue(c) == d
  {
    '0' + d as char
  }

  function DigitValue(c: char): (d: int)
    requires IsDigit(c)
    ensures 0 <= d < 10
  {
    c as int - '0' as int
  }

  /** The shortest decimal numeral of a natural number. */
  function Numeral(n: nat): (s: string)
    ensures |s| >= 1 && AllDigits(s)
  {
    if n < 10 then [DigitChar(n)] else Numeral(n / 10) + [DigitChar(n % 10)]
  }

  /** The canonical spelling of an integer: no leading zero, no "-0", no plus sign. */
  function Spelling(n: int): string {
    if n < 0 then "-" + Numeral(-n) else Numeral(n)
  }

  /** The number a digit string denotes, leading zeros allowed. */
  function Value(s: string): nat
    requires AllDigits(s)
  {
    if s == [] then 0 else 10 * Value(s[..|s| - 1]) + DigitValue(s[|s| - 1])
  }

  function Pow10(k: nat): (p: nat)
    ensures p >= 1
  {
    if k == 0 then 1 else 10 * Pow10(k - 1)
  }

  lemma {:induction false} ValueOfNumeral(n: nat)
    ensures Value(Numeral(n)) == n
    ensures Numeral(n)[0] == '0' ==> n == 0
  {
    if n >= 10 {
      ValueOfNumeral(n / 10);
      assert Numeral(n)[..|Numeral(n)| - 1] == Numeral(n / 10);
    } else {
      assert [DigitChar(n)][..0] == [];
    }
  }

  /** A digit string without a leading zero is the numeral of its value. */
  lemma {:induction false} NumeralOfValue(s: string)
    requires s != [] && AllDigits(s)
    requires s[0] == '0' ==> |s| == 1
    ensures Numeral(Value(s)) == s
    ensures s[0] != '0' ==> Value(s) > 0
  {
    var init := s[..|s| - 1];
    if |s| == 1 {
      assert init == [];
    } else {
      NumeralOfValue(init);
      assert init[0] == s[0];
      var v := Value(init);
      assert Value(s) == 10 * v + DigitValue(s[|s| - 1]);
      assert Value(s) / 10 == v && Value(s) % 10 == DigitValue(s[|s| - 1]);
      assert s == init + [s[|s| - 1]];
    }
  }

  lemma SpellingInjective(m: int, n: int)
    requires Spelling(m) == Spelling(n)
    ensures m == n
  {
    hide Numeral, Value, Spelling;
    SpellingSign(m);
    SpellingSign(n);
    ValueOfNumeral(if m < 0 then -m else m);
    ValueOfNumeral(if n < 0 then -n else n);
  }

  lemma SpellingSign(n: int)
    ensures Spelling(n) != "" && (Spelling(n)[0] == '-' <==> n < 0)
    ensures Spelling(n)[if n < 0 then 1 else 0..] == Numeral(if n < 0 then -n else n)
  {
    hide Numeral;
    assert IsDigit(Numeral(if n < 0 then -n else n)[0]);
  }

  lemma {:induction false} NumeralLength(n: nat)
    ensures n < Pow10(|Numeral(n)|)
    ensures n > 0 ==> Pow10(|Numeral(n)| - 1) <= n
  {
    if n >= 10 {
      NumeralLength(n / 10);
    } else {
      assert Pow10(1) == 10 && Pow10(0) == 1;
    }
  }

  lemma {:induction false} Pow10Monotone(i: nat, j: nat)
    requires i <= j
    ensures Pow10(i) <= Pow10(j)
  {
    if i < j {
      Pow10Monotone(i, j - 1);
    }
  }

  /** A number below 10^k has a numeral of at most k digits. */
  lemma NumeralFits(n: nat, k: nat)
    requires 1 <= k && n < Pow10(k)
    ensures |Numeral(n)| <= k
  {
    NumeralLength(n);
    if |Numeral(n)| > k {
      assert n == 0 ==> |Numeral(n)| == 1;
      Pow10Monotone(k, |Numeral(n)| - 1);
    }
  }

  lemma Pow10Of19()
    ensures Pow10(19) == 10_000_000_000_000_000_000
  {
    assert Pow10(4) == 10_000;
    assert Pow10(8) == 100_000_000;
    assert Pow10(12) == 1_000_000_000_000;
    assert Pow10(16) == 10_000_000_000_000_000;
  }

  /** Dropping a suffix of digits never makes the value larger. */
  lemma {:induction false} ValueOfPrefix(s: string, k: nat)
    requires AllDigits(s) && k <= |s|
    ensures Value(s[..k]) <= Value(s)
    decreases |s|
  {
    if k == |s| {
      assert s[..k] == s;
    } else {
      ValueOfPrefix(s[..|s| - 1], k);
      assert s[..|s| - 1][..k] == s[..k];
    }
  }

  predicate InLongLong(n: int) { LLONG_MIN <= n <= LLONG_MAX }

  /** What a strict reader of `long long` must return: the integer whose canonical spelling is s. */
  ghost function ParseLongLong(s: string): Option<int> {
    if exists n :: InLongLong(n) && s == Spelling(n)
    then (var n :| InLongLong(n) && s == Spelling(n); Some(n))
    else None
  }

  lemma ParseLongLongCanonical(s: string, n: int)
    ensures ParseLongLong(s) == Some(n) <==> InLongLong(n) && s == Spelling(n)
  {
    if InLongLong(n) && s == Spelling(n) {
      var m := ParseLongLong(s).value;
      SpellingInjective(m, n);
    }
  }

  lemma SpellingOfZero()
    ensures Spelling(0) == "0"
  {
  }

  /** Accepts the text exactly when it is canonical, and then yields its value. */
  method String2ll(s: string) returns (r: Option<int>)
    ensures r == ParseLongLong(s)
  {
    hide ParseLongLong, Numeral, Value;
    if |s| == 1 && s[0] == '0' {
      SpellingOfZero();
      ParseLongLongCanonical(s, 0);
      return Some(0);
    }
    var negative := |s| > 0 && s[0] == '-';
    var start := if negative then 1 else 0;
    if start == |s| || !('1' <= s[start] <= '9') {
      RejectUnlessDigits(s);
      return None;
    }
    var fits, v, plen := AccumulateDigits(s, start);
    if !fits {
      RejectLarge(s, start, plen);
      return None;
    }
    if plen < |s| {
      assert s[start..][plen - start] == s[plen];
      RejectUnlessDigits(s);
      return None;
    }
    assert s[start..plen] == s[start..];
    if v > (if negative then LLONG_MAX + 1 else LLONG_MAX) {
      RejectLarge(s, start, |s|);
      return None;
    }
    NumeralOfValue(s[start..]);
    assert s == if negative then "-" + s[start..] else s[start..];
    ParseLongLongCanonical(s, if negative then -v else v);
    return Some(if negative then -v else v);
  }

  /** The digit loop of the reader: the value of the longest digit run, kept within 64 unsigned bits. */
  method AccumulateDigits(s: string, start: nat) returns (fits: bool, v: nat, plen: nat)
    requires start < |s| && '1' <= s[start] <= '9'
    ensures start < plen <= |s| && AllDigits(s[start..plen])
    ensures fits ==> v == Value(s[start..plen]) <= ULLONG_MAX && (plen == |s| || !IsDigit(s[plen]))
    ensures !fits ==> Value(s[start..plen]) > ULLONG_MAX
  {
    v := DigitValue(s[start]);
    plen := start + 1;
    assert s[start..plen] == [s[start]] && s[start..plen][..0] == [];
    while plen < |s| && IsDigit(s[plen])
      invariant start < plen <= |s| && AllDigits(s[start..plen])
      invariant v == Value(s[start..plen]) <= ULLONG_MAX
    {
      var d := DigitValue(s[plen]);
      assert s[start..plen + 1][..plen - start] == s[start..plen];
      assert s[start..plen + 1][plen - start] == s[plen];
      plen := plen + 1;
      if v > ULLONG_MAX / 10 || v * 10 > ULLONG_MAX - d {
        return false, v, plen;
      }
      v := v * 10 + d;
    }
    fits := true;
  }

  /** What every spelling looks like: an optional sign, then digits without a leading zero. */
  lemma SpellingShape(n: int)
    ensures var s := Spelling(n);
      && s != []
      && var start := if s[0] == '-' then 1 else 0;
      && start < |s| && AllDigits(s[start..]) && (s[start] == '0' ==> |s| == 1)
      && Value(s[start..]) == (if n < 0 then -n else n)
      && (start == 1 <==> n < 0)
  {
    var a := if n < 0 then -n else n;
    ValueOfNumeral(a);
    assert IsDigit(Numeral(a)[0]);
    if n < 0 {
      assert Spelling(n)[1..] == Numeral(a);
    } else {
      assert Spelling(n)[0..] == Numeral(a);
    }
  }

  lemma RejectUnlessDigits(s: string)
    requires var start := if s != [] && s[0] == '-' then 1 else 0;
      || start == |s| || !AllDigits(s[start..]) || (s[start] == '0' && |s| > 1)
    ensures ParseLongLong(s) == None
  {
    forall n ensures s != Spelling(n) {
      SpellingShape(n);
    }
  }

  lemma SpellingPrefix(n: int, start: nat, upto: nat)
    requires var s := Spelling(n);
      start == (if n < 0 then 1 else 0) && start <= upto <= |s|
    ensures AllDigits(Spelling(n)[start..upto])
    ensures Value(Spelling(n)[start..upto]) <= if n < 0 then -n else n
  {
    SpellingShape(n);
    var t := Spelling(n)[start..];
    assert t[..upto - start] == Spelling(n)[start..upto];
    ValueOfPrefix(t, upto - start);
  }

  /** Once the digits read so far exceed what the sign allows, no spelling in range is left. */
  lemma RejectLarge(s: string, start: nat, upto: nat)
    requires s != [] && start == (if s[0] == '-' then 1 else 0)
    requires start < upto <= |s| && AllDigits(s[start..upto])
    requires Value(s[start..upto]) > LLONG_MAX + start
    ensures ParseLongLong(s) == None
  {
    forall n | s == Spelling(n) ensures !InLongLong(n) {
      SpellingShape(n);
      SpellingPrefix(n, start, upto);
    }
  }

  /** Division and remainder as C computes them, truncating towards zero. */
  function TruncDiv(a: int, b: int): int
    requires b > 0
  {
    if a >= 0 then a / b else -((-a) / b)
  }

  function TruncMod(a: int, b: int): int
    requires b > 0
  {
    if a >= 0 then a % b else -((-a) % b)
  }

  function Reversed(s: string): (r: string)
    ensures |r| == |s| && forall i :: 0 <= i < |s| ==> r[i] == s[|s| - 1 - i]
  {
    if s == [] then [] else Reversed(s[1..]) + [s[0]]
  }

  method ReverseInPlace(buf: array<char>, len: nat)
    requires len <= buf.Length
    modifies buf
    ensures buf[..len] == Reversed(old(buf[..len]))
    ensures buf[len..] == old(buf[len..])
  {
    var s, p := 0, len;
    while s < p
      invariant 0 <= s && 0 <= p && s + p == len
      invariant forall k :: 0 <= k < s ==> buf[k] == old(buf[len - 1 - k]) && buf[len - 1 - k] == old(buf[k])
      invariant forall k :: s <= k < p ==> buf[k] == old(buf[k])
      invariant buf[len..] == old(buf[len..])
    {
      p := p - 1;
      buf[s], buf[p] := buf[p], buf[s];
      s := s + 1;
    }
  }

  /** The common tail of the printers: sign, terminator and reversal of the digits written backwards. */
  method SignAndReverse(buf: array<char>, digits: nat, negative: bool, ghost all: string) returns (l: nat)
    requires digits + 1 < buf.Length && all == Reversed(buf[..digits])
    modifies buf
    ensures l < buf.Length && buf[l] == '\0'
    ensures buf[..l] == (if negative then "-" else "") + all
  {
    ghost var low := buf[..digits];
    l := digits;
    if negative {
      buf[l] := '-';
      l := l + 1;
      assert buf[..l] == low + ['-'];
    }
    buf[l] := '\0';
    assert buf[..l] == if negative then low + ['-'] else low;
    ReverseInPlace(buf, l);
    assert buf[l] == buf[l..][0];
  }

  /** Writes the spelling of a `long long` other than the minimum, NUL-terminated, and returns its length. */
  method SdsLl2str(buf: array<char>, value: int) returns (l: nat)
    requires InLongLong(value) && value != LLONG_MIN
    requires buf.Length >= 21
    modifies buf
    ensures l < buf.Length && buf[..l] == Spelling(value) && buf[l] == '\0'
  {
    var v: nat := if value < 0 then -value else value;
    ghost var all := Numeral(v);
    Pow10Of19();
    NumeralFits(v, 19);
    buf[0] := DigitChar(v % 10);
    var p := 1;
    v := v / 10;
    assert Written(buf[..1], v, all);
    while v != 0
      invariant 1 <= p <= 19 && Written(buf[..p], v, all)
    {
      assert |Numeral(v)| >= 1;
      ghost var before := buf[..p];
      buf[p] := DigitChar(v % 10);
      assert buf[..p + 1] == before + [DigitChar(v % 10)];
      WriteDigit(before, v, all);
      v := v / 10;
      p := p + 1;
    }
    l := SignAndReverse(buf, p, value < 0, all);
  }

  /** `low` holds, least significant first, the digits of `all` that remain once `rest` is left to print. */
  ghost predicate Written(low: string, rest: nat, all: string) {
    all == (if rest == 0 then [] else Numeral(rest)) + Reversed(low)
  }

  lemma WriteDigit(low: string, rest: nat, all: string)
    requires rest != 0 && Written(low, rest, all)
    ensures Written(low + [DigitChar(rest % 10)], rest / 10, all)
  {
    var d := DigitChar(rest % 10);
    assert Reversed(low + [d]) == [d] + Reversed(low);
  }

  /** The digit table of log_stream.cc, indexed from -9 to 9. */
  const DIGITS := "9876543210123456789"

  /** The template conversion for any signed 64-bit value, the minimum included. */
  method Convert(buf: array<char>, value: int) returns (l: nat)
    requires InLongLong(value)
    requires buf.Length >= 21
    modifies buf
    ensures l < buf.Length && buf[..l] == Spelling(value) && buf[l] == '\0'
  {
    var i := value;
    ghost var v: nat := if value < 0 then -value else value;
    ghost var all := Numeral(v);
    Pow10Of19();
    NumeralFits(v, 19);
    DigitTable(i);
    buf[0] := DIGITS[9 + TruncMod(i, 10)];
    i := TruncDiv(i, 10);
    var p := 1;
    assert Written(buf[..1], v / 10, all);
    while i != 0
      invariant 1 <= p <= 19 && (value < 0 ==> i <= 0) && (value >= 0 ==> i >= 0)
      invariant Written(buf[..p], if i < 0 then -i else i, all)
      decreases if i < 0 then -i else i
    {
      ghost var a := if i < 0 then -i else i;
      assert |Numeral(a)| >= 1;
      ghost var before := buf[..p];
      DigitTable(i);
      buf[p] := DIGITS[9 + TruncMod(i, 10)];
      assert buf[..p + 1] == before + [DigitChar(a % 10)];
      WriteDigit(before, a, all);
      i := TruncDiv(i, 10);
      p := p + 1;
    }
    l := SignAndReverse(buf, p, value < 0, all);
  }

  lemma DigitTable(i: int)
    ensures -9 <= TruncMod(i, 10) <= 9
    ensures DIGITS[9 + TruncMod(i, 10)] == DigitChar((if i < 0 then -i else i) % 10)
  {
  }

  /** The two printers and the strict reader undo each other on every 64-bit value. */
  lemma ReadsWhatIsPrinted(n: int)
    requires InLongLong(n)
    ensures ParseLongLong(Spelling(n)) == Some(n)
  {
    ParseLongLongCanonical(Spelling(n), n);
  }

  /** Counts decimal digits four at a time. */
  method CountDigits(v0: nat) returns (result: nat)
    ensures result == |Numeral(v0)|
  {
    var v := v0;
    result := 1;
    while true
      invariant result - 1 + |Numeral(v)| == |Numeral(v0)|
      decreases v
    {
      if v < 10 { return result; }
      if v < 100 { return result + 1; }
      if v < 1000 { assert |Numeral(v / 10)| == 2; return result + 2; }
      if v < 10000 { assert |Numeral(v / 10 / 10)| == 2; return result + 3; }
      assert |Numeral(v)| == 4 + |Numeral(v / 10000)| by { NumeralFour(v); }
      v := v / 10000;
      result := result + 4;
    }
  }

  lemma NumeralFour(v: nat)
    requires v >= 10000
    ensures |Numeral(v)| == 4 + |Numeral(v / 10000)|
  {
    assert v / 10 / 10 / 10 / 10 == v / 10000;
    assert |Numeral(v / 10)| == 1 + |Numeral(v / 10 / 10)|;
    assert |Numeral(v / 10 / 10)| == 1 + |Numeral(v / 10 / 10 / 10)|;
    assert |Numeral(v / 10 / 10 / 10)| == 1 + |Numeral(v / 10 / 10 / 10 / 10)|;
  }
}
