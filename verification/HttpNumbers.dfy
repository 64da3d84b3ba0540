/** The numbers the parser reads into 64 bits, decimal and hexadecimal, and its test for overflow. */
module HttpNumbers {
  import opened Common
  import opened HttpMachine

  lemma AccumulateExact(c: nat, base: nat, digit: nat)
    requires base >= 1 && c * base + digit < ULLONG_MAX
    ensures Accumulate(c, base, digit) == Some(c * base + digit)
  {
    assert c * base >= c by {
      assert c * base == c * (base - 1) + c;
      assert c * (base - 1) >= 0;
    }
  }

  /** The step from u to v = u * base + d that the overflow test lets pass: it looks at both modulo 2^64. */
  predicate Passes(u: nat, v: nat) {
    v % WORD >= u % WORD && v % WORD != ULLONG_MAX
  }

  const WORD := ULLONG_MAX + 1

  lemma WrapStep(u: nat, base: nat, d: nat)
    ensures (u % WORD * base + d) % WORD == (u * base + d) % WORD
  {
    var q, c := u / WORD, u % WORD;
    assert u * base == WORD * (q * base) + c * base by {
      assert u == WORD * q + c;
      assert (WORD * q + c) * base == WORD * (q * base) + c * base;
    }
    WrapMultiple(q * base, c * base + d);
  }

  lemma WrapMultiple(k: int, x: int)
    ensures (WORD * k + x) % WORD == x % WORD
  {
  }

  /** The overflow test in terms of the values that the digits spell. */
  lemma AccumulatePasses(u: nat, base: nat, d: nat)
    ensures var v := u * base + d;
      Accumulate(u % WORD, base, d) == if Passes(u, v) then Some(v % WORD) else None
  {
    WrapStep(u, base, d);
  }

  /** A number within the word passes, and reads as itself. */
  lemma SmallPasses(u: nat, v: nat)
    requires u <= v < ULLONG_MAX
    ensures Passes(u, v) && v % WORD == v
  {
  }

  /** The step to a number of which only the last digit may overflow: the test misses some. */
  lemma LastStepPasses(u: nat, v: nat, base: nat)
    requires base > 0 && u == v / base && u < ULLONG_MAX
    ensures Passes(u, v) <==> v % WORD >= v / base && v % WORD != ULLONG_MAX
  {
  }
}
