/** Message bodies: known length and chunked. */
module HttpBodies {
  import opened Common
  import opened HttpMachine
  import opened HttpNumbers

  // ---------- the fast path: many body bytes at once ----------

  predicate InBody(p: Parser) {
    && !Halted(p)
    && 0 < p.contentLength < ULLONG_MAX
    && (p.state == BodyIdentity || (p.state == ChunkData && p.flags.chunked))
  }

  /** The parser after all of its body bytes have been delivered. */
  function BodyEnd(p: Parser): Parser {
    var q := p.(contentLength := 0);
    if p.state == ChunkData then q.(state := ChunkDataAlmostDone) else q.(state := NewMessage(q.(state := MessageDone)))
  }

  function BodyEndEvents(p: Parser): seq<Event> {
    if p.state == ChunkData then [] else [MessageComplete]
  }

  lemma BodyByte(s: Session, ch: char)
    requires InBody(s.parser)
    ensures s.parser.contentLength > 1 ==>
      Advance(s, ch) == Session(s.parser.(contentLength := s.parser.contentLength - 1), Log(s.log, Data(Body, [ch])), s.consumed + 1)
    ensures s.parser.contentLength == 1 ==>
      Advance(s, ch) == Session(BodyEnd(s.parser), LogAll(Log(s.log, Data(Body, [ch])), BodyEndEvents(s.parser)), s.consumed + 1)
  {
    hide Log, LogAll, ShouldKeepAlive;
    assert Step(s.parser, ch) == if s.parser.state == ChunkData then ExecChunkData(s.parser, ch) else ExecBody(s.parser, ch);
    var d := Data(Body, [ch]);
    if s.parser.state == ChunkData {
      LogOne(s.log, d);
      assert LogAll(Log(s.log, d), []) == Log(s.log, d) by { LogNone(Log(s.log, d)); }
    } else {
      LogOne(s.log, d);
      LogTwo(s.log, d, MessageComplete);
      LogOne(Log(s.log, d), MessageComplete);
    }
  }

  /** Delivering k body bytes in one portion is the same as delivering them one by one. */
  lemma {:induction false} RunBody(s: Session, data: string)
    requires InBody(s.parser) && 0 < |data| <= s.parser.contentLength
    ensures var log := Log(s.log, Data(Body, data));
      Run(s, data) ==
        if |data| < s.parser.contentLength
        then Session(s.parser.(contentLength := s.parser.contentLength - |data|), log, s.consumed + |data|)
        else Session(BodyEnd(s.parser), LogAll(log, BodyEndEvents(s.parser)), s.consumed + |data|)
    decreases |data|
  {
    hide Step, BodyEnd, BodyEndEvents, Log, LogAll;
    var ch := data[0];
    BodyByte(s, ch);
    assert data == [ch] + data[1..];
    RunOne(s, ch, data[1..]);
    if |data| == 1 {
      assert data == [ch];
      assert Run(Advance(s, ch), data[1..]) == Advance(s, ch);
    } else {
      BodyEndSame(s.parser);
      RunBody(Advance(s, ch), data[1..]);
      LogJoin(s.log, Body, [ch], data[1..]);
    }
  }

  lemma BodyEndSame(p: Parser)
    requires p.contentLength > 0
    ensures BodyEnd(p.(contentLength := p.contentLength - 1)) == BodyEnd(p)
    ensures BodyEndEvents(p.(contentLength := p.contentLength - 1)) == BodyEndEvents(p)
  {
  }

  // ---------- chunked bodies ----------

  /** What stands for a digit of a size: the hexadecimal digits, and bytes from 0x80 up, which read as zero. */
  predicate IsSizeDigit(ch: char) { Unhex(ch) != -1 }

  const LOWER_HEX := "0123456789abcdef"
  const UPPER_HEX := "0123456789ABCDEF"

  /** Its value is its place among the digits of either case. */
  lemma SizeDigits(ch: char, d: nat)
    requires d < 16
    ensures Unhex(ch) == d <==> ch == LOWER_HEX[d] || ch == UPPER_HEX[d] || (d == 0 && ch as int >= 0x80)
    ensures !IsSizeDigit(ch) <==> ch as int < 0x80 && ch !in LOWER_HEX && ch !in UPPER_HEX
  {
    if IsHexDigit(ch) {
      assert ch == LOWER_HEX[Unhex(ch)] || ch == UPPER_HEX[Unhex(ch)];
    }
  }

  predicate IsHex(s: string) {
    forall i :: 0 <= i < |s| ==> IsSizeDigit(s[i])
  }

  /** A size in digits of either case, leading zeros allowed, with what may stand behind it up to the line end. */
  datatype Size = Size(digits: string, extension: string)

  /** A chunk: the line with its size, and its data. */
  datatype Chunk = Chunk(size: Size, data: string)

  predicate IsExtension(e: string) {
    e == "" || ((e[0] == ';' || e[0] == ' ') && forall i :: 0 <= i < |e| ==> e[i] != CR)
  }

  /** Horner's rule from the left. */
  function HexFrom(c: nat, s: string): (v: nat)
    requires IsHex(s)
    ensures v >= c
    decreases |s|
  {
    if s == "" then c else HexFrom(c * 16 + Unhex(s[0]), s[1..])
  }

  function SizeLine(z: Size): string { z.digits + z.extension + "\r\n" }

  predicate IsSize(z: Size) {
    && z.digits != "" && IsHex(z.digits) && IsExtension(z.extension) && |SizeLine(z)| <= HTTP_MAX_HEADER_SIZE
    && HexFrom(0, z.digits) < ULLONG_MAX
  }

  predicate WellFormed(c: Chunk) {
    IsSize(c.size) && HexFrom(0, c.size.digits) == |c.data| > 0
  }

  /** The size of the last chunk: zero, in any spelling. */
  predicate IsLast(z: Size) {
    IsSize(z) && HexFrom(0, z.digits) == 0
  }

  function Encode(c: Chunk): string {
    SizeLine(c.size) + c.data + "\r\n"
  }

  function EncodeAll(cs: seq<Chunk>): string {
    if cs == [] then "" else Encode(cs[0]) + EncodeAll(cs[1..])
  }

  function Payload(cs: seq<Chunk>): string {
    if cs == [] then "" else cs[0].data + Payload(cs[1..])
  }

  /** The parser between two chunks. */
  predicate AtChunk(p: Parser) {
    !Halted(p) && p.state == ChunkSizeStart && p.flags.chunked && p.nread == 0
  }

  predicate InSize(p: Parser, c: nat) {
    !Halted(p) && p.state == ChunkSize && p.flags.chunked && p.contentLength == c
  }

  lemma SizeStartByte(s: Session, ch: char)
    requires AtChunk(s.parser) && IsSizeDigit(ch)
    ensures Advance(s, ch) == Session(s.parser.(nread := 1, state := ChunkSize, contentLength := Unhex(ch)), s.log, s.consumed + 1)
  {
    hide Log;
    assert Step(s.parser, ch) == ExecChunkSizeStart(Counted(s.parser), ch);
  }

  lemma SizeByte(s: Session, c: nat, ch: char)
    requires InSize(s.parser, c) && IsSizeDigit(ch) && c * 16 + Unhex(ch) < ULLONG_MAX
    requires s.parser.nread < HTTP_MAX_HEADER_SIZE
    ensures Advance(s, ch) ==
      Session(s.parser.(nread := s.parser.nread + 1, contentLength := c * 16 + Unhex(ch)), s.log, s.consumed + 1)
  {
    hide Log;
    assert Step(s.parser, ch) == ExecChunkSize(Counted(s.parser), ch);
    assert Unhex(ch) >= 0;
    assert (c * 16 + Unhex(ch)) % (ULLONG_MAX + 1) == c * 16 + Unhex(ch);
  }

  lemma {:induction false} RunSize(s: Session, c: nat, h: string)
    requires InSize(s.parser, c) && IsHex(h) && HexFrom(c, h) < ULLONG_MAX
    requires s.parser.nread + |h| <= HTTP_MAX_HEADER_SIZE
    ensures Run(s, h) == Session(s.parser.(nread := s.parser.nread + |h|, contentLength := HexFrom(c, h)), s.log, s.consumed + |h|)
    decreases |h|
  {
    hide Step;
    if h != "" {
      SizeByte(s, c, h[0]);
      RunSize(Advance(s, h[0]), c * 16 + Unhex(h[0]), h[1..]);
    }
  }

  /** In a size line, behind its digits. */
  predicate InSizeLine(p: Parser, c: nat) {
    !Halted(p) && (p.state == ChunkSize || p.state == ChunkParameters) && p.flags.chunked && p.contentLength == c
  }

  lemma ExtensionByte(s: Session, c: nat, ch: char)
    requires InSizeLine(s.parser, c) && ch != CR && s.parser.nread < HTTP_MAX_HEADER_SIZE
    requires s.parser.state == ChunkSize ==> ch == ';' || ch == ' '
    ensures Advance(s, ch) == Session(s.parser.(nread := s.parser.nread + 1, state := ChunkParameters), s.log, s.consumed + 1)
  {
    hide Log;
    assert Step(s.parser, ch) ==
      if s.parser.state == ChunkSize then ExecChunkSize(Counted(s.parser), ch) else ExecChunkParameters(Counted(s.parser), ch);
  }

  /** What follows the digits of a size is read over. */
  lemma {:induction false} RunExtension(s: Session, c: nat, e: string)
    requires InSizeLine(s.parser, c) && s.parser.nread + |e| <= HTTP_MAX_HEADER_SIZE
    requires (s.parser.state == ChunkSize ==> IsExtension(e)) && forall i :: 0 <= i < |e| ==> e[i] != CR
    ensures Run(s, e) == Session(
      s.parser.(nread := s.parser.nread + |e|, state := if e == "" then s.parser.state else ChunkParameters), s.log, s.consumed + |e|)
    decreases |e|
  {
    hide Step, Advance;
    if e != "" {
      ExtensionByte(s, c, e[0]);
      RunExtension(Advance(s, e[0]), c, e[1..]);
    }
  }

  /** The line end after a chunk size: either data follow or the trailer does. */
  lemma SizeLineEnd(s: Session, c: nat)
    requires InSizeLine(s.parser, c) && s.parser.nread + 2 <= HTTP_MAX_HEADER_SIZE
    ensures Run(s, "\r\n") == Session(
      if c == 0
      then s.parser.(nread := 0, state := HeaderFieldStart, flags := s.parser.flags.(trailing := true))
      else s.parser.(nread := 0, state := ChunkData), s.log, s.consumed + 2)
  {
    hide Step, Advance, Run;
    var t := Session(s.parser.(nread := s.parser.nread + 1, state := ChunkSizeAlmostDone), s.log, s.consumed + 1);
    SizeCr(s, c);
    SizeLf(t);
    assert "\r\n" == ['\r', '\n'];
    RunTwo(s, '\r', '\n');
  }

  lemma SizeCr(s: Session, c: nat)
    requires InSizeLine(s.parser, c) && s.parser.nread + 2 <= HTTP_MAX_HEADER_SIZE
    ensures Advance(s, '\r') == Session(s.parser.(nread := s.parser.nread + 1, state := ChunkSizeAlmostDone), s.log, s.consumed + 1)
  {
    hide Log;
    assert Step(s.parser, '\r') ==
      if s.parser.state == ChunkSize then ExecChunkSize(Counted(s.parser), '\r') else ExecChunkParameters(Counted(s.parser), '\r');
  }

  lemma SizeLf(s: Session)
    requires !Halted(s.parser) && s.parser.state == ChunkSizeAlmostDone && s.parser.flags.chunked
    requires s.parser.nread + 1 <= HTTP_MAX_HEADER_SIZE
    ensures Advance(s, '\n') == Session(
      if s.parser.contentLength == 0
      then s.parser.(nread := 0, state := HeaderFieldStart, flags := s.parser.flags.(trailing := true))
      else s.parser.(nread := 0, state := ChunkData), s.log, s.consumed + 1)
  {
    hide Log;
    assert Step(s.parser, '\n') == ExecChunkSizeAlmostDone(Counted(s.parser), '\n');
  }

  lemma DataCr(s: Session)
    requires !Halted(s.parser) && s.parser.state == ChunkDataAlmostDone && s.parser.flags.chunked && s.parser.contentLength == 0
    ensures Advance(s, '\r') == Session(s.parser.(state := ChunkDataDone), s.log, s.consumed + 1)
  {
    hide Log;
    assert Step(s.parser, '\r') == ExecChunkDataAlmostDone(s.parser, '\r');
  }

  lemma DataLf(s: Session)
    requires !Halted(s.parser) && s.parser.state == ChunkDataDone && s.parser.flags.chunked
    ensures Advance(s, '\n') == Session(s.parser.(nread := 0, state := ChunkSizeStart), s.log, s.consumed + 1)
  {
    hide Log;
    assert Step(s.parser, '\n') == ExecChunkDataDone(s.parser, '\n');
  }

  /** The line end after chunk data. */
  lemma DataLineEnd(s: Session)
    requires !Halted(s.parser) && s.parser.state == ChunkDataAlmostDone && s.parser.flags.chunked && s.parser.contentLength == 0
    ensures Run(s, "\r\n") == Session(s.parser.(nread := 0, state := ChunkSizeStart), s.log, s.consumed + 2)
  {
    hide Advance, Step, Run;
    var t := Session(s.parser.(state := ChunkDataDone), s.log, s.consumed + 1);
    DataCr(s);
    DataLf(t);
    assert "\r\n" == ['\r', '\n'];
    RunTwo(s, '\r', '\n');
  }

  /** The digits of a size, from the first on. */
  lemma RunDigits(s: Session, digits: string)
    requires AtChunk(s.parser) && digits != "" && IsHex(digits) && |digits| <= HTTP_MAX_HEADER_SIZE
    requires HexFrom(0, digits) < ULLONG_MAX
    ensures Run(s, digits) == Session(
      s.parser.(nread := |digits|, contentLength := HexFrom(0, digits), state := ChunkSize), s.log, s.consumed + |digits|)
  {
    hide Step, Advance, Run;
    SizeStartByte(s, digits[0]);
    assert digits == [digits[0]] + digits[1..];
    RunOne(s, digits[0], digits[1..]);
    assert HexFrom(0, digits) == HexFrom(Unhex(digits[0]), digits[1..]);
    RunSize(Advance(s, digits[0]), Unhex(digits[0]), digits[1..]);
  }

  /** A size in hexadecimal with its extension and its line end. */
  lemma RunSizeLine(s: Session, z: Size)
    requires AtChunk(s.parser) && IsSize(z)
    ensures var c := HexFrom(0, z.digits);
      Run(s, SizeLine(z)) == Session(
        if c == 0
        then s.parser.(nread := 0, contentLength := 0, state := HeaderFieldStart, flags := s.parser.flags.(trailing := true))
        else s.parser.(nread := 0, contentLength := c, state := ChunkData), s.log, s.consumed + |SizeLine(z)|)
  {
    hide Step, Run, HexFrom;
    var c := HexFrom(0, z.digits);
    RunDigits(s, z.digits);
    RunSplit(s, z.digits, z.extension);
    RunExtension(Run(s, z.digits), c, z.extension);
    RunSplit(s, z.digits + z.extension, "\r\n");
    SizeLineEnd(Run(s, z.digits + z.extension), c);
  }

  /** Every hexadecimal digit passes the overflow test, given the digits before it. */
  predicate EachHexPasses(size: string)
    requires IsHex(size)
  {
    forall k :: 1 <= k < |size| ==> Passes(HexFrom(0, size[..k]), HexFrom(0, size[..k + 1]))
  }

  lemma EachHexPassesNext(size: string)
    requires |size| > 1 && IsHex(size)
    ensures var init := size[..|size| - 1];
      EachHexPasses(size) <==> EachHexPasses(init) && Passes(HexFrom(0, init), HexFrom(0, size))
  {
    hide Passes, HexFrom;
    var n := |size| - 1;
    var init := size[..n];
    assert size[..n + 1] == size;
    assert forall k :: 0 <= k <= n ==> init[..k] == size[..k];
    if EachHexPasses(init) && Passes(HexFrom(0, init), HexFrom(0, size)) {
      forall k | 1 <= k < |size| ensures Passes(HexFrom(0, size[..k]), HexFrom(0, size[..k + 1])) {
        if k < n {
          assert Passes(HexFrom(0, init[..k]), HexFrom(0, init[..k + 1]));
        }
      }
    }
    if EachHexPasses(size) {
      assert Passes(HexFrom(0, size[..n]), HexFrom(0, size[..n + 1]));
      forall k | 1 <= k < n ensures Passes(HexFrom(0, init[..k]), HexFrom(0, init[..k + 1])) {
        assert Passes(HexFrom(0, size[..k]), HexFrom(0, size[..k + 1]));
      }
    }
  }

  lemma {:induction false} HexLast(c: nat, s: string)
    requires s != "" && IsHex(s)
    ensures var n := |s| - 1; HexFrom(c, s) == HexFrom(c, s[..n]) * 16 + Unhex(s[n])
    decreases |s|
  {
    hide Unhex;
    var n := |s| - 1;
    if n == 0 {
      assert s[1..] == "" && s[..n] == "";
    } else {
      HexLast(c * 16 + Unhex(s[0]), s[1..]);
      assert s[1..][..n - 1] == s[..n][1..];
    }
  }

  lemma SizeStep(s: Session, u: nat, ch: char)
    requires InSize(s.parser, u % WORD) && IsSizeDigit(ch) && s.parser.nread < HTTP_MAX_HEADER_SIZE
    ensures var q := Advance(s, ch).parser; var v := u * 16 + Unhex(ch);
      if Passes(u, v) then q == s.parser.(nread := s.parser.nread + 1, contentLength := v % WORD)
      else q.errno == InvalidContentLength
  {
    AccumulatePasses(u, 16, Unhex(ch));
    hide Accumulate, Passes, Log, LogAll, Unhex;
    HexDigitIsNoEnd(ch);
    assert Step(s.parser, ch) == ExecChunkSize(Counted(s.parser), ch);
  }

  lemma HexDigitIsNoEnd(ch: char)
    requires IsSizeDigit(ch)
    ensures ch != CR && Unhex(ch) != -1
  {
  }

  /** Any hexadecimal size is accepted exactly when each digit passes the test, and then read modulo 2^64. */
  lemma {:induction false} SizeRead(s: Session, size: string)
    requires AtChunk(s.parser) && size != "" && IsHex(size) && |size| <= HTTP_MAX_HEADER_SIZE
    ensures var q := Run(s, size).parser;
      if EachHexPasses(size) then InSize(q, HexFrom(0, size) % WORD) && q.nread == |size|
      else q.errno == InvalidContentLength
    decreases |size|
  {
    hide Step, Advance, EachHexPasses, Passes, HexFrom;
    var n := |size| - 1;
    var ch := size[n];
    if n == 0 {
      SizeStartByte(s, ch);
      assert size == [ch];
      RunOne(s, ch, "");
      assert [ch] + "" == size;
      OneHexDigit(size);
    } else {
      var init := size[..n];
      assert size == init + [ch];
      SizeRead(s, init);
      EachHexPassesNext(size);
      HexLast(0, size);
      RunSplit(s, init, [ch]);
      var t := Run(s, init);
      if EachHexPasses(init) {
        SizeStep(t, HexFrom(0, init), ch);
        RunOne(t, ch, "");
        assert [ch] + "" == [ch];
      }
    }
  }

  lemma OneHexDigit(size: string)
    requires |size| == 1 && IsHex(size)
    ensures EachHexPasses(size) && HexFrom(0, size) % WORD == Unhex(size[0])
  {
    assert size[1..] == "";
  }

  lemma {:induction false} HexOfPrefix(s: string, k: nat)
    requires IsHex(s) && k <= |s|
    ensures HexFrom(0, s[..k]) <= HexFrom(0, s)
    decreases |s|
  {
    hide HexFrom;
    if k == |s| {
      assert s[..k] == s;
    } else {
      HexLast(0, s);
      HexOfPrefix(s[..|s| - 1], k);
      assert s[..|s| - 1][..k] == s[..k];
    }
  }

  lemma AllSmallHexPass(size: string)
    requires IsHex(size) && HexFrom(0, size) < ULLONG_MAX
    ensures EachHexPasses(size)
  {
    hide Passes, HexFrom;
    forall k | 1 <= k < |size| ensures Passes(HexFrom(0, size[..k]), HexFrom(0, size[..k + 1])) {
      var longer := size[..k + 1];
      assert longer[..k] == size[..k];
      HexOfPrefix(longer, k);
      HexOfPrefix(size, k + 1);
      SmallPasses(HexFrom(0, size[..k]), HexFrom(0, longer));
    }
  }

  /**
   * When a chunk size is refused, and when it is misread: a size v whose quotient by 16 is below 2^64 - 1 is
   * refused exactly when v modulo 2^64 is below that quotient or is 2^64 - 1, and read as v modulo 2^64 otherwise.
   */
  lemma SizeOverflowTest(s: Session, size: string)
    requires AtChunk(s.parser) && size != "" && IsHex(size) && |size| <= HTTP_MAX_HEADER_SIZE
    requires HexFrom(0, size) / 16 < ULLONG_MAX
    ensures var q := Run(s, size).parser; var v := HexFrom(0, size);
      && (q.errno != OK <==> v % WORD < v / 16 || v % WORD == ULLONG_MAX)
      && (q.errno == OK ==> q.contentLength == v % WORD)
  {
    hide Run, EachHexPasses, HexFrom, Passes;
    SizeRead(s, size);
    HexLast(0, size);
    var n := |size| - 1;
    var init := size[..n];
    if n == 0 {
      OneHexDigit(size);
      assert init == "";
      HexOfNothing();
      SmallPasses(0, HexFrom(0, size));
    } else {
      EachHexPassesNext(size);
      AllSmallHexPass(init);
    }
    LastStepPasses(HexFrom(0, init), HexFrom(0, size), 16);
  }

  function Pow16(k: nat): nat { if k == 0 then 1 else 16 * Pow16(k - 1) }

  lemma {:induction false} HexZerosBehind(s: string, zeros: string)
    requires IsHex(s) && IsHex(s + zeros) && forall i :: 0 <= i < |zeros| ==> zeros[i] == '0'
    ensures HexFrom(0, s + zeros) == HexFrom(0, s) * Pow16(|zeros|)
    decreases |zeros|
  {
    hide HexFrom;
    if zeros == "" {
      assert s + zeros == s;
    } else {
      var k := |zeros| - 1;
      assert (s + zeros)[..|s| + k] == s + zeros[..k];
      HexZerosBehind(s, zeros[..k]);
      HexLast(0, s + zeros);
      SixteenTimes(HexFrom(0, s), Pow16(k));
    }
  }

  lemma SixteenTimes(a: nat, b: nat)
    ensures a * (16 * b) == a * b * 16
  {
  }

  const FIFTEEN_ZEROS := "000000000000000"

  lemma FifteenZeros(first: string)
    requires IsHex(first)
    ensures IsHex(first + FIFTEEN_ZEROS) && HexFrom(0, first + FIFTEEN_ZEROS) == HexFrom(0, first) * 0x1000_0000_0000_0000
  {
    hide HexFrom;
    HexZerosBehind(first, FIFTEEN_ZEROS);
    assert Pow16(4) == 0x1_0000;
    assert Pow16(8) == 0x1_0000_0000;
    assert Pow16(12) == 0x1_0000_0000_0000;
    assert Pow16(15) == 0x1000_0000_0000_0000;
  }

  lemma TwoHexDigits(a: char, b: char)
    requires IsSizeDigit(a) && IsSizeDigit(b)
    ensures HexFrom(0, [a, b]) == 16 * Unhex(a) + Unhex(b)
  {
    assert [a, b][1..] == [b] && [b][1..] == "";
    assert HexFrom(0, [a, b]) == HexFrom(Unhex(a), [b]);
    assert HexFrom(Unhex(a), [b]) == HexFrom(Unhex(a) * 16 + Unhex(b), "");
  }

  /** So the test is one-sided here too: 18 with fifteen zeros reads as 2^63, and 10 with fifteen zeros is refused. */
  lemma SizeTestIsOneSided(s: Session)
    requires AtChunk(s.parser)
    ensures var q := Run(s, "18000000000000000").parser;
      q.errno == OK && q.contentLength == 0x8000_0000_0000_0000
    ensures Run(s, "10000000000000000").parser.errno != OK
  {
    hide Run, HexFrom, IsHex;
    assert "18000000000000000" == ['1', '8'] + FIFTEEN_ZEROS && "10000000000000000" == ['1', '0'] + FIFTEEN_ZEROS;
    SmallSizes();
    FifteenZeros(['1', '8']);
    FifteenZeros(['1', '0']);
    SizeOverflowTest(s, "18000000000000000");
    SizeOverflowTest(s, "10000000000000000");
  }

  lemma SmallSizes()
    ensures IsHex(['1', '8']) && HexFrom(0, ['1', '8']) == 0x18 && IsHex(['1', '0']) && HexFrom(0, ['1', '0']) == 0x10
  {
    TwoHexDigits('1', '8');
    TwoHexDigits('1', '0');
  }

  lemma HexOfNothing()
    ensures HexFrom(0, "") == 0
  {
  }

  /** A size line starts with a digit. */
  lemma SizeRefused(s: Session, ch: char)
    requires AtChunk(s.parser) && !IsSizeDigit(ch)
    ensures Advance(s, ch).parser.errno == InvalidChunkSize
  {
    hide Log, LogAll, Unhex;
    assert Step(s.parser, ch) == ExecChunkSizeStart(Counted(s.parser), ch);
  }

  /** Its digits are followed by a carriage return, a semicolon or a blank. */
  lemma SizeEndRefused(s: Session, c: nat, ch: char)
    requires InSize(s.parser, c) && s.parser.nread < HTTP_MAX_HEADER_SIZE
    requires !IsSizeDigit(ch) && ch != CR && ch != ';' && ch != ' '
    ensures Advance(s, ch).parser.errno == InvalidChunkSize
  {
    hide Log, LogAll, Unhex, Accumulate;
    assert Step(s.parser, ch) == ExecChunkSize(Counted(s.parser), ch);
  }

  /** One chunk delivers its data and leaves the parser between chunks. */
  lemma RunChunk(s: Session, c: Chunk)
    requires AtChunk(s.parser) && WellFormed(c)
    ensures Run(s, Encode(c)) == Session(s.parser.(contentLength := 0), Log(s.log, Data(Body, c.data)), s.consumed + |Encode(c)|)
  {
    hide Step, Log;
    RunSizeLine(s, c.size);
    var t := Run(s, SizeLine(c.size));
    RunBody(t, c.data);
    var u := Run(t, c.data);
    LogNone(Log(s.log, Data(Body, c.data)));
    DataLineEnd(u);
    RunSplit(s, SizeLine(c.size) + c.data, "\r\n");
    RunSplit(s, SizeLine(c.size), c.data);
  }

  /** The log after the data of some chunks, if there are any. */
  function BodyLog(log: seq<Event>, cs: seq<Chunk>): seq<Event> {
    if cs == [] then log else Log(log, Data(Body, Payload(cs)))
  }

  lemma {:induction false} RunChunks(s: Session, cs: seq<Chunk>)
    requires AtChunk(s.parser) && forall i :: 0 <= i < |cs| ==> WellFormed(cs[i])
    ensures var q := Run(s, EncodeAll(cs));
      && AtChunk(q.parser)
      && q.parser == (if cs == [] then s.parser else s.parser.(contentLength := 0))
      && q.log == BodyLog(s.log, cs)
      && q.consumed == s.consumed + |EncodeAll(cs)|
    decreases |cs|
  {
    hide Step, Log, Encode, Run, WellFormed;
    if cs == [] {
      RunNothing(s);
    } else {
      RunChunk(s, cs[0]);
      var t := Run(s, Encode(cs[0]));
      RunSplit(s, Encode(cs[0]), EncodeAll(cs[1..]));
      RunChunks(t, cs[1..]);
      if cs[1..] == [] {
        assert Payload(cs) == cs[0].data + "";
        assert cs[0].data + "" == cs[0].data;
      } else {
        LogJoin(s.log, Body, cs[0].data, Payload(cs[1..]));
      }
    }
  }

  /** In the trailer behind the last chunk, at the start of a line. */
  predicate AtTrailer(p: Parser) {
    AtHeader(p) && p.flags.trailing && p.nread + 2 <= HTTP_MAX_HEADER_SIZE
  }

  lemma TrailerCr(s: Session)
    requires AtTrailer(s.parser)
    ensures Advance(s, '\r') == Session(s.parser.(nread := s.parser.nread + 1, state := HeadersAlmostDone), s.log, s.consumed + 1)
  {
    hide Log, LogAll, ShouldKeepAlive, ExecHeadersAlmostDone;
    LogNone(s.log);
    var p := Counted(s.parser);
    assert Step(s.parser, '\r') == if s.parser.state == HeaderFieldStart then ExecFieldStart(p, '\r') else ExecLws(p, '\r');
  }

  lemma TrailerLf(s: Session)
    requires !Halted(s.parser) && s.parser.state == HeadersAlmostDone && s.parser.flags.trailing
    requires s.parser.nread < HTTP_MAX_HEADER_SIZE
    ensures var t := s.parser.(nread := s.parser.nread + 1);
      Advance(s, '\n') == Session(t.(state := NewMessage(t)), Log(s.log, MessageComplete), s.consumed + 1)
  {
    hide Log, LogAll, ShouldKeepAlive, ExecHeadersDone;
    LogOne(s.log, MessageComplete);
    assert Step(s.parser, '\n') == ExecHeadersAlmostDone(Counted(s.parser), '\n');
  }

  /** The end of the message behind the trailer. */
  lemma TrailerEnd(s: Session)
    requires AtTrailer(s.parser)
    ensures Run(s, "\r").log == s.log
    ensures var t := s.parser.(nread := s.parser.nread + 2);
      Run(s, "\r\n") == Session(t.(state := NewMessage(t)), Log(s.log, MessageComplete), s.consumed + 2)
  {
    hide Advance, Log, Step, Run;
    var t := Advance(s, '\r');
    TrailerCr(s);
    TrailerLf(t);
    RunSingle(s, '\r');
    assert "\r\n" == ['\r', '\n'];
    RunTwo(s, '\r', '\n');
  }

  /** All chunks and the last, empty one: what follows is the trailer. */
  lemma RunToTrailer(s: Session, cs: seq<Chunk>, last: Size)
    requires AtChunk(s.parser) && IsLast(last) && forall i :: 0 <= i < |cs| ==> WellFormed(cs[i])
    ensures Run(s, EncodeAll(cs) + SizeLine(last)) == Session(
      s.parser.(nread := 0, contentLength := 0, state := HeaderFieldStart, flags := s.parser.flags.(trailing := true)),
      BodyLog(s.log, cs), s.consumed + |EncodeAll(cs)| + |SizeLine(last)|)
  {
    hide Step, Log, Run, EncodeAll, Payload, WellFormed, SizeLine, HexFrom;
    RunChunks(s, cs);
    RunSplit(s, EncodeAll(cs), SizeLine(last));
    RunSizeLine(Run(s, EncodeAll(cs)), last);
  }

  /** A chunked body delivers the concatenation of its chunks, and the message is complete exactly once, at the
      last byte: before it the log holds the body and no completion, after it the completion has been added. The
      header bytes counted for the trailer stay counted. */
  lemma ChunkedBody(s: Session, cs: seq<Chunk>, last: Size)
    requires AtChunk(s.parser) && IsLast(last) && forall i :: 0 <= i < |cs| ==> WellFormed(cs[i])
    ensures Run(s, EncodeAll(cs) + SizeLine(last) + "\r").log == BodyLog(s.log, cs)
    ensures var q := Run(s, EncodeAll(cs) + SizeLine(last) + "\r\n");
      && !Halted(q.parser) && q.log == Log(BodyLog(s.log, cs), MessageComplete)
      && q.parser.state == (if ShouldKeepAlive(s.parser) then StartReq else Dead) && q.parser.nread == 2
      && q.consumed == s.consumed + |EncodeAll(cs)| + |SizeLine(last)| + 2
  {
    hide Step, Log, Run, EncodeAll, BodyLog, WellFormed, SizeLine, IsLast;
    RunToTrailer(s, cs, last);
    var text := EncodeAll(cs) + SizeLine(last);
    TrailerEnd(Run(s, text));
    RunSplit(s, text, "\r");
    RunSplit(s, text, "\r\n");
  }

  /** A body of known length is delivered whole, and completes the message at its last byte. */
  lemma IdentityBody(s: Session, data: string)
    requires !Halted(s.parser) && s.parser.state == BodyIdentity && s.parser.contentLength == |data| && 0 < |data| < ULLONG_MAX
    ensures var body := Log(s.log, Data(Body, data));
      Run(s, data) == Session(BodyEnd(s.parser), Log(body, MessageComplete), s.consumed + |data|)
    ensures |data| > 1 ==> Run(s, data[..|data| - 1]).log == Log(s.log, Data(Body, data[..|data| - 1]))
  {
    hide Step, Log, BodyEnd;
    RunBody(s, data);
    LogOne(Log(s.log, Data(Body, data)), MessageComplete);
    if |data| > 1 {
      RunBody(s, data[..|data| - 1]);
    }
  }
}
