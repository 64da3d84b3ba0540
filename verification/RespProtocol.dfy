/** The Redis reply protocol as a step function over bytes, and what the steps promise:
    the way a stream is cut into feeds does not matter, and every encoded reply is read back. */
module RespProtocol {
  import opened Common
  import opened Decimal

  datatype Reply =
    | Integer(n: int)
    | Str(s: string)
    | Status(s: string)
    | Error(s: string)
    | Nil
    | Array(items: seq<Reply>)

  datatype ItemType = ErrorItem | StatusItem | IntegerItem | StringItem | ArrayItem

  datatype ReadError =
    | BadTypeByte(b: char)
    | BadInteger
    | BadBulkLength
    | BulkLengthOutOfRange
    | NestingTooDeep
    | BadMultiBulkLength
    | MultiBulkLengthOutOfRange

  /** An array that has been announced with `elements` items, of which `items` have arrived. */
  datatype Frame = Frame(elements: int, items: seq<Reply>)

  /** The open arrays, outermost first, and the type of the item being read once its type byte is known. */
  datatype State = State(frames: seq<Frame>, typ: Option<ItemType>)

  const IDLE := State([], None)

  /** The task stack has nine slots; only the first eight can hold arrays. */
  const MAX_FRAMES := 8

  predicate WellFormed(st: State) {
    && |st.frames| <= MAX_FRAMES
    && forall i :: 0 <= i < |st.frames| ==> |st.frames[i].items| < st.frames[i].elements
  }

  datatype Outcome =
    | NeedMore
    | Fail(error: ReadError)
    | Next(consumed: nat, state: State, emitted: seq<Reply>)

  /** Position of the first CR LF. */
  function FirstCrLf(s: string): (r: Option<nat>)
    ensures r.Some? ==> r.value + 2 <= |s| && s[r.value] == '\r' && s[r.value + 1] == '\n'
    ensures r.Some? ==> forall i :: 0 <= i < r.value ==> !(s[i] == '\r' && s[i + 1] == '\n')
    ensures r.None? ==> forall i :: 0 <= i < |s| - 1 ==> !(s[i] == '\r' && s[i + 1] == '\n')
  {
    if |s| < 2 then None
    else if s[0] == '\r' && s[1] == '\n' then Some(0)
    else
      match FirstCrLf(s[1..])
      case None => None
      case Some(i) => Some(i + 1)
  }

  lemma FirstCrLfUnique(s: string, i: nat)
    requires i + 2 <= |s| && s[i] == '\r' && s[i + 1] == '\n'
    requires forall k :: 0 <= k < i ==> !(s[k] == '\r' && s[k + 1] == '\n')
    ensures FirstCrLf(s) == Some(i)
  {
  }

  /** Bytes that arrive later do not move a line end that is already there. */
  lemma FirstCrLfStable(a: string, b: string)
    requires FirstCrLf(a).Some?
    ensures FirstCrLf(a + b) == FirstCrLf(a)
  {
    var i := FirstCrLf(a).value;
    forall k | 0 <= k < i ensures !((a + b)[k] == '\r' && (a + b)[k + 1] == '\n') {
      assert !(a[k] == '\r' && a[k + 1] == '\n');
    }
    FirstCrLfUnique(a + b, i);
  }

  /** Hands a finished item to its array; a full array is itself finished. */
  function Complete(frames: seq<Frame>, v: Reply): (r: (State, seq<Reply>))
    ensures WellFormed(State(frames, None)) ==> WellFormed(r.0)
    ensures r.0.typ == None && |r.0.frames| <= |frames|
    decreases |frames|
  {
    if frames == [] then (IDLE, [v])
    else
      var outer, last := frames[..|frames| - 1], frames[|frames| - 1];
      var items := last.items + [v];
      if |items| == last.elements then Complete(outer, Array(items))
      else (State(outer + [last.(items := items)], None), [])
  }

  function Completed(consumed: nat, frames: seq<Frame>, v: Reply): Outcome {
    var (st, emitted) := Complete(frames, v);
    Next(consumed, st, emitted)
  }

  function TypeOfByte(b: char): Option<ItemType> {
    match b
    case '-' => Some(ErrorItem)
    case '+' => Some(StatusItem)
    case ':' => Some(IntegerItem)
    case '$' => Some(StringItem)
    case '*' => Some(ArrayItem)
    case _ => None
  }

  ghost function StepLine(frames: seq<Frame>, typ: ItemType, input: string): Outcome {
    match FirstCrLf(input)
    case None => NeedMore
    case Some(i) =>
      var text := input[..i];
      if typ == IntegerItem then
        match ParseLongLong(text)
        case None => Fail(BadInteger)
        case Some(n) => Completed(i + 2, frames, Integer(n))
      else
        Completed(i + 2, frames, if typ == ErrorItem then Error(text) else Status(text))
  }

  ghost function StepBulk(frames: seq<Frame>, input: string): Outcome {
    match FirstCrLf(input)
    case None => NeedMore
    case Some(i) =>
      match ParseLongLong(input[..i])
      case None => Fail(BadBulkLength)
      case Some(len) =>
        if len < -1 then Fail(BulkLengthOutOfRange)
        else if len == -1 then Completed(i + 2, frames, Nil)
        else if i + 2 + len + 2 <= |input| then
          Completed(i + 2 + len + 2, frames, Str(input[i + 2..i + 2 + len]))
        else NeedMore
  }

  ghost function StepArray(frames: seq<Frame>, input: string): Outcome {
    if |frames| == MAX_FRAMES then Fail(NestingTooDeep)
    else
      match FirstCrLf(input)
      case None => NeedMore
      case Some(i) =>
        match ParseLongLong(input[..i])
        case None => Fail(BadMultiBulkLength)
        case Some(n) =>
          if n < -1 || n > INT_MAX then Fail(MultiBulkLengthOutOfRange)
          else if n == -1 then Completed(i + 2, frames, Nil)
          else if n == 0 then Completed(i + 2, frames, Array([]))
          else Next(i + 2, State(frames + [Frame(n, [])], None), [])
  }

  /** One move of the reader: a type byte, or the rest of an item that is there in full. */
  ghost function Step(st: State, input: string): (r: Outcome)
    ensures r.Next? ==> 1 <= r.consumed <= |input|
    ensures r.Next? && WellFormed(st) ==> WellFormed(r.state)
  {
    match st.typ
    case None =>
      if input == "" then NeedMore
      else if TypeOfByte(input[0]).None? then Fail(BadTypeByte(input[0]))
      else Next(1, st.(typ := TypeOfByte(input[0])), [])
    case Some(StringItem) => StepBulk(st.frames, input)
    case Some(ArrayItem) => StepArray(st.frames, input)
    case Some(typ) => StepLine(st.frames, typ, input)
  }

  /** The result of reading as far as the input allows. After an error nothing else is kept. */
  datatype Reading = Reading(replies: seq<Reply>, error: Option<ReadError>, state: State, rest: string)

  function Prepend(replies: seq<Reply>, r: Reading): Reading {
    r.(replies := replies + r.replies)
  }

  ghost function Drain(st: State, input: string): Reading
    decreases |input|
  {
    match Step(st, input)
    case NeedMore => Reading([], None, st, input)
    case Fail(e) => Reading([], Some(e), IDLE, "")
    case Next(n, st', emitted) => Prepend(emitted, Drain(st', input[n..]))
  }

  /** One unfolding of `Drain`. */
  lemma DrainStep(st: State, input: string)
    ensures match Step(st, input)
      case NeedMore => Drain(st, input) == Reading([], None, st, input)
      case Fail(e) => Drain(st, input) == Reading([], Some(e), IDLE, "")
      case Next(n, st', emitted) => Drain(st, input) == Prepend(emitted, Drain(st', input[n..]))
  {
  }

  /** A move that is possible stays the same move when more bytes are there. */
  lemma StepStable(st: State, a: string, b: string)
    requires !Step(st, a).NeedMore?
    ensures Step(st, a + b) == Step(st, a)
  {
    hide StepLine, StepBulk, StepArray;
    match st.typ {
      case None =>
      case Some(StringItem) => BulkStable(st.frames, a, b);
      case Some(ArrayItem) => ArrayStable(st.frames, a, b);
      case Some(typ) => LineStable(st.frames, typ, a, b);
    }
  }

  lemma LineEndStays(a: string, b: string)
    requires FirstCrLf(a).Some?
    ensures FirstCrLf(a + b) == FirstCrLf(a) && (a + b)[..FirstCrLf(a).value] == a[..FirstCrLf(a).value]
  {
    FirstCrLfStable(a, b);
  }

  lemma LineStable(frames: seq<Frame>, typ: ItemType, a: string, b: string)
    requires !StepLine(frames, typ, a).NeedMore?
    ensures StepLine(frames, typ, a + b) == StepLine(frames, typ, a)
  {
    hide FirstCrLf, ParseLongLong, Complete;
    LineEndStays(a, b);
  }

  lemma ArrayStable(frames: seq<Frame>, a: string, b: string)
    requires !StepArray(frames, a).NeedMore?
    ensures StepArray(frames, a + b) == StepArray(frames, a)
  {
    hide FirstCrLf, ParseLongLong, Complete;
    if |frames| != MAX_FRAMES {
      LineEndStays(a, b);
    }
  }

  lemma BulkStable(frames: seq<Frame>, a: string, b: string)
    requires !StepBulk(frames, a).NeedMore?
    ensures StepBulk(frames, a + b) == StepBulk(frames, a)
  {
    hide FirstCrLf, ParseLongLong, Complete;
    LineEndStays(a, b);
    var i := FirstCrLf(a).value;
    var len := ParseLongLong(a[..i]);
    if len.Some? && 0 <= len.value && i + 2 + len.value + 2 <= |a| {
      assert (a + b)[i + 2..i + 2 + len.value] == a[i + 2..i + 2 + len.value];
    }
  }

  /** Continuing a reading with more bytes. */
  ghost function Resume(r: Reading, more: string): Reading {
    if r.error.Some? then r else Prepend(r.replies, Drain(r.state, r.rest + more))
  }

  lemma {:induction false} DrainSplit(st: State, a: string, b: string)
    ensures Drain(st, a + b) == Resume(Drain(st, a), b)
    decreases |a|
  {
    hide Step, Drain;
    DrainStep(st, a);
    DrainStep(st, a + b);
    match Step(st, a) {
      case NeedMore =>
        PrependNothing(Drain(st, a + b));
      case Fail(e) =>
        StepStable(st, a, b);
      case Next(n, st', emitted) =>
        StepStable(st, a, b);
        assert (a + b)[n..] == a[n..] + b;
        DrainSplit(st', a[n..], b);
        PrependTwice(emitted, Drain(st', a[n..]), b);
    }
  }

  lemma PrependTwice(emitted: seq<Reply>, r: Reading, b: string)
    ensures Prepend(emitted, Resume(r, b)) == Resume(Prepend(emitted, r), b)
  {
    hide Drain;
    if r.error.None? {
      var d := Drain(r.state, r.rest + b);
      assert emitted + (r.replies + d.replies) == (emitted + r.replies) + d.replies;
    }
  }

  /** Feeding the pieces one after the other, reading all there is to read after each. */
  ghost function FeedAll(r: Reading, pieces: seq<string>): Reading
    decreases |pieces|
  {
    if pieces == [] then r else FeedAll(Resume(r, pieces[0]), pieces[1..])
  }

  const NOTHING_READ := Reading([], None, IDLE, "")

  /** Split invariance: any cutting of the stream gives the replies and the error of one big feed. */
  lemma SplitInvariance(pieces: seq<string>)
    ensures FeedAll(NOTHING_READ, pieces) == Drain(IDLE, Concat(pieces))
  {
    FeedAllIsDrain("", pieces);
    assert Drain(IDLE, "") == NOTHING_READ;
    assert "" + Concat(pieces) == Concat(pieces);
  }

  lemma {:induction false} FeedAllIsDrain(before: string, pieces: seq<string>)
    ensures FeedAll(Drain(IDLE, before), pieces) == Drain(IDLE, before + Concat(pieces))
    decreases |pieces|
  {
    hide Drain, Resume, Step;
    if pieces == [] {
      assert before + Concat(pieces) == before;
    } else {
      DrainSplit(IDLE, before, pieces[0]);
      FeedAllIsDrain(before + pieces[0], pieces[1..]);
      assert (before + pieces[0]) + Concat(pieces[1..]) == before + Concat(pieces);
    }
  }

  // ---------- encoding ----------

  const CRLF := "\r\n"

  predicate NoCrLf(s: string) {
    forall i :: 0 <= i < |s| - 1 ==> !(s[i] == '\r' && s[i + 1] == '\n')
  }

  /** The RESP2 encoding of a reply tree. */
  function Encode(t: Reply): string
    decreases t, 0
  {
    match t
    case Integer(n) => ":" + Spelling(n) + CRLF
    case Str(s) => "$" + Spelling(|s|) + CRLF + s + CRLF
    case Status(s) => "+" + s + CRLF
    case Error(s) => "-" + s + CRLF
    case Nil => "$-1" + CRLF
    case Array(items) => "*" + Spelling(|items|) + CRLF + EncodeAll(items)
  }

  function EncodeAll(items: seq<Reply>): string
    decreases items, 1
  {
    if items == [] then "" else Encode(items[0]) + EncodeAll(items[1..])
  }

  /** Replies a server can send: 64-bit integers, line texts without CR LF, lengths in range,
      and arrays nested at most `depth` deep. */
  predicate Sendable(t: Reply, depth: nat)
    decreases t
  {
    match t
    case Integer(n) => InLongLong(n)
    case Str(s) => |s| <= LLONG_MAX
    case Status(s) => NoCrLf(s)
    case Error(s) => NoCrLf(s)
    case Nil => true
    case Array(items) =>
      && 0 < depth
      && |items| <= INT_MAX
      && forall i :: 0 <= i < |items| ==> Sendable(items[i], depth - 1)
  }

  /** A text without CR LF, followed by CR LF, is a line of exactly that text; a text may end in CR. */
  lemma LineOf(text: string, rest: string)
    requires NoCrLf(text)
    ensures FirstCrLf(text + CRLF + rest) == Some(|text|)
    ensures (text + CRLF + rest)[..|text|] == text
  {
    var s := text + CRLF + rest;
    forall k | 0 <= k < |text| ensures !(s[k] == '\r' && s[k + 1] == '\n') {
      if k < |text| - 1 {
        assert !(text[k] == '\r' && text[k + 1] == '\n');
      }
    }
    FirstCrLfUnique(s, |text|);
  }

  lemma SpellingHasNoCrLf(n: int)
    ensures NoCrLf(Spelling(n))
  {
    var s := Spelling(n);
    forall i | 0 <= i < |s| ensures s[i] != '\r' {
      assert n < 0 ==> s[1..] == Numeral(-n);
      if n < 0 && i > 0 {
        assert s[i] == Numeral(-n)[i - 1];
      }
    }
  }

  lemma PrependNothing(r: Reading)
    ensures Prepend([], r) == r
  {
    assert [] + r.replies == r.replies;
  }

  /** The type byte is consumed first and changes nothing else. */
  lemma DrainTypeByte(frames: seq<Frame>, input: string)
    requires input != "" && TypeOfByte(input[0]).Some?
    ensures Drain(State(frames, None), input) == Drain(State(frames, TypeOfByte(input[0])), input[1..])
  {
    PrependNothing(Drain(State(frames, TypeOfByte(input[0])), input[1..]));
  }

  /** The claim about one item: reading it is the same as handing over its tree. */
  ghost predicate ReadsAs(frames: seq<Frame>, input: string, v: Reply, rest: string) {
    var (st, emitted) := Complete(frames, v);
    Drain(State(frames, None), input) == Prepend(emitted, Drain(st, rest))
  }

  lemma StepThenDrain(frames: seq<Frame>, input: string, n: nat, v: Reply, rest: string)
    requires input != "" && TypeOfByte(input[0]).Some?
    requires 1 <= n <= |input| - 1 && input[1..][n..] == rest
    requires Step(State(frames, TypeOfByte(input[0])), input[1..]) == Completed(n, frames, v)
    ensures ReadsAs(frames, input, v, rest)
  {
    DrainTypeByte(frames, input);
  }

  /** The line that starts an integer, a bulk string or an array. */
  lemma NumberLine(n: int, rest: string)
    requires InLongLong(n)
    ensures var line := Spelling(n) + CRLF + rest;
      && FirstCrLf(line) == Some(|Spelling(n)|)
      && ParseLongLong(line[..|Spelling(n)|]) == Some(n)
      && line[|Spelling(n)| + 2..] == rest
  {
    SpellingHasNoCrLf(n);
    LineOf(Spelling(n), rest);
    ReadsWhatIsPrinted(n);
  }

  lemma ReadInteger(frames: seq<Frame>, n: int, rest: string)
    requires InLongLong(n)
    ensures ReadsAs(frames, Encode(Integer(n)) + rest, Integer(n), rest)
  {
    hide StepBulk, StepArray, Spelling, FirstCrLf, ParseLongLong, Complete;
    var input := Encode(Integer(n)) + rest;
    LineTail(":", Spelling(n), rest);
    NumberLine(n, rest);
    StepThenDrain(frames, input, |Spelling(n)| + 2, Integer(n), rest);
  }

  lemma LineTail(mark: string, line: string, rest: string)
    requires |mark| == 1
    ensures var input := mark + line + CRLF + rest;
      input[0] == mark[0] && input[1..] == line + CRLF + rest
  {
    assert mark + line + CRLF + rest == mark + (line + CRLF + rest);
  }

  lemma ReadNil(frames: seq<Frame>, rest: string)
    ensures ReadsAs(frames, Encode(Nil) + rest, Nil, rest)
  {
    var input := Encode(Nil) + rest;
    assert Spelling(-1) == "-1";
    assert input[1..] == Spelling(-1) + CRLF + rest;
    NumberLine(-1, rest);
    StepThenDrain(frames, input, 4, Nil, rest);
  }

  /** The null array is no array: it reads as nil wherever an array may stand. */
  lemma NullArray(frames: seq<Frame>, rest: string)
    requires |frames| < MAX_FRAMES
    ensures ReadsAs(frames, "*-1\r\n" + rest, Nil, rest)
  {
    hide StepBulk, StepLine, FirstCrLf, ParseLongLong, Complete;
    var input := "*-1\r\n" + rest;
    assert Spelling(-1) == "-1";
    assert input[1..] == Spelling(-1) + CRLF + rest;
    NumberLine(-1, rest);
    StepThenDrain(frames, input, 4, Nil, rest);
  }

  lemma ReadBulk(frames: seq<Frame>, s: string, rest: string)
    requires |s| <= LLONG_MAX
    ensures ReadsAs(frames, Encode(Str(s)) + rest, Str(s), rest)
  {
    ReadBulkEnding(frames, s, CRLF, rest);
  }

  /** The two bytes behind a bulk string are skipped, whatever they are. */
  lemma ReadBulkEnding(frames: seq<Frame>, s: string, end: string, rest: string)
    requires |s| <= LLONG_MAX && |end| == 2
    ensures ReadsAs(frames, "$" + Spelling(|s|) + CRLF + s + end + rest, Str(s), rest)
  {
    hide StepLine, StepArray, Spelling, FirstCrLf;
    var input := "$" + Spelling(|s|) + CRLF + s + end + rest;
    var payload := s + end + rest;
    assert input[1..] == Spelling(|s|) + CRLF + payload;
    NumberLine(|s|, payload);
    assert payload[..|s|] == s && payload[|s| + 2..] == rest;
    BulkStep(frames, input[1..], |Spelling(|s|)|, payload, |s|);
    StepThenDrain(frames, input, |Spelling(|s|)| + 2 + |s| + 2, Str(s), rest);
  }

  lemma BulkStep(frames: seq<Frame>, body: string, i: nat, payload: string, len: nat)
    requires FirstCrLf(body) == Some(i) && ParseLongLong(body[..i]) == Some(len)
    requires body[i + 2..] == payload && len + 2 <= |payload|
    ensures StepBulk(frames, body) == Completed(i + 2 + len + 2, frames, Str(payload[..len]))
    ensures body[i + 2 + len + 2..] == payload[len + 2..]
  {
    hide FirstCrLf, ParseLongLong, Complete, StepLine, StepArray;
    SliceTwice(body, i + 2, len);
    SliceTwice(body, i + 2, len + 2);
  }

  lemma SliceTwice(s: string, a: nat, b: nat)
    requires a + b <= |s|
    ensures s[a..][..b] == s[a..a + b] && s[a..][b..] == s[a + b..]
  {
  }

  lemma ReadText(frames: seq<Frame>, t: Reply, rest: string)
    requires t.Status? || t.Error?
    requires NoCrLf(t.s)
    ensures ReadsAs(frames, Encode(t) + rest, t, rest)
  {
    var input := Encode(t) + rest;
    assert input[1..] == t.s + CRLF + rest;
    LineOf(t.s, rest);
    StepThenDrain(frames, input, |t.s| + 2, t, rest);
  }

  lemma ArrayHeader(items: seq<Reply>, rest: string)
    ensures var input := Encode(Array(items)) + rest;
      input != "" && input[0] == '*' && input[1..] == Spelling(|items|) + CRLF + (EncodeAll(items) + rest)
  {
    hide Spelling, EncodeAll;
    HeaderTail(Spelling(|items|), EncodeAll(items), rest);
  }

  lemma HeaderTail(count: string, all: string, rest: string)
    ensures ("*" + count + CRLF + all + rest)[1..] == count + CRLF + (all + rest)
  {
  }

  lemma ReadEmptyArray(frames: seq<Frame>, rest: string)
    requires |frames| < MAX_FRAMES
    ensures ReadsAs(frames, Encode(Array([])) + rest, Array([]), rest)
  {
    ArrayHeader([], rest);
    assert EncodeAll([]) + rest == rest;
    NumberLine(0, rest);
    StepThenDrain(frames, Encode(Array([])) + rest, |Spelling(0)| + 2, Array([]), rest);
  }

  /** The frames inside the array of `items` when the first k of them have been read. */
  function Opened(frames: seq<Frame>, items: seq<Reply>, k: nat): (r: seq<Frame>)
    requires k <= |items|
    ensures |r| == |frames| + 1
  {
    frames + [Frame(|items|, items[..k])]
  }

  /** The header of an array with items opens a frame. */
  lemma ReadArrayHeader(frames: seq<Frame>, items: seq<Reply>, rest: string)
    requires |frames| < MAX_FRAMES && 0 < |items| <= INT_MAX
    ensures Drain(State(frames, None), Encode(Array(items)) + rest)
      == Drain(State(Opened(frames, items, 0), None), EncodeAll(items) + rest)
  {
    hide Step, StepBulk, StepLine, StepArray, Drain, Encode, EncodeAll, Spelling, FirstCrLf, ParseLongLong;
    var input := Encode(Array(items)) + rest;
    var more := EncodeAll(items) + rest;
    ArrayHeader(items, rest);
    NumberLine(|items|, more);
    DrainTypeByte(frames, input);
    OpenArray(frames, input[1..], |Spelling(|items|)|, |items|, more);
    assert items[..0] == [];
  }

  lemma OpenArray(frames: seq<Frame>, body: string, i: nat, n: int, more: string)
    requires |frames| < MAX_FRAMES && 0 < n <= INT_MAX
    requires FirstCrLf(body) == Some(i) && ParseLongLong(body[..i]) == Some(n) && body[i + 2..] == more
    ensures Drain(State(frames, Some(ArrayItem)), body) == Drain(State(frames + [Frame(n, [])], None), more)
  {
    hide FirstCrLf, ParseLongLong, StepArray, StepLine, StepBulk, Drain;
    OpenArrayStep(frames, body, i, n);
    DrainStep(State(frames, Some(ArrayItem)), body);
    PrependNothing(Drain(State(frames + [Frame(n, [])], None), more));
  }

  lemma OpenArrayStep(frames: seq<Frame>, body: string, i: nat, n: int)
    requires |frames| < MAX_FRAMES && 0 < n <= INT_MAX
    requires FirstCrLf(body) == Some(i) && ParseLongLong(body[..i]) == Some(n)
    ensures StepArray(frames, body) == Next(i + 2, State(frames + [Frame(n, [])], None), [])
  {
    hide FirstCrLf, ParseLongLong;
  }

  /** Reading an encoded item, in any position of any array, is the same as handing over its tree. */
  lemma {:induction false} DrainEncoded(frames: seq<Frame>, t: Reply, rest: string)
    requires |frames| <= MAX_FRAMES && Sendable(t, MAX_FRAMES - |frames|)
    ensures ReadsAs(frames, Encode(t) + rest, t, rest)
    decreases t, 1
  {
    hide Step, Drain, Encode, EncodeAll, Complete, Opened;
    match t {
      case Integer(n) => ReadInteger(frames, n, rest);
      case Str(s) => ReadBulk(frames, s, rest);
      case Status(_) => ReadText(frames, t, rest);
      case Error(_) => ReadText(frames, t, rest);
      case Nil => ReadNil(frames, rest);
      case Array(items) =>
        if items == [] {
          ReadEmptyArray(frames, rest);
        } else {
          var last := |items| - 1;
          var tail := Encode(items[last]) + rest;
          ReadArrayHeader(frames, items, rest);
          SplitItems(items, last, rest);
          NothingBehind(items, rest);
          DrainItems(frames, t, last, tail);
          DrainEncoded(Opened(frames, items, last), items[last], rest);
          CompleteLast(frames, items);
        }
    }
  }

  lemma NothingBehind(items: seq<Reply>, rest: string)
    ensures EncodeAll(items[|items|..]) + rest == rest
  {
  }

  lemma CompleteLast(frames: seq<Frame>, items: seq<Reply>)
    requires items != []
    ensures var last := |items| - 1;
      Complete(Opened(frames, items, last), items[last]) == Complete(frames, Array(items))
  {
    var last := |items| - 1;
    assert Opened(frames, items, last)[..|frames|] == frames;
    assert items[..last] + [items[last]] == items;
  }

  /** An item that is not the last one leaves its array open. */
  lemma CompleteInner(frames: seq<Frame>, items: seq<Reply>, k: nat, rest: string)
    requires k + 1 < |items|
    requires ReadsAs(Opened(frames, items, k), Encode(items[k]) + rest, items[k], rest)
    ensures Drain(State(Opened(frames, items, k), None), Encode(items[k]) + rest)
      == Drain(State(Opened(frames, items, k + 1), None), rest)
  {
    hide Drain, Encode;
    CompleteStays(frames, items, k);
    PrependNothing(Drain(State(Opened(frames, items, k + 1), None), rest));
  }

  lemma CompleteStays(frames: seq<Frame>, items: seq<Reply>, k: nat)
    requires k + 1 < |items|
    ensures Complete(Opened(frames, items, k), items[k]) == (State(Opened(frames, items, k + 1), None), [])
  {
    assert Opened(frames, items, k)[..|frames|] == frames;
    assert items[..k] + [items[k]] == items[..k + 1];
  }

  lemma EncodeNext(items: seq<Reply>, k: nat, rest: string)
    requires k < |items|
    ensures EncodeAll(items[..k + 1]) + rest == EncodeAll(items[..k]) + (Encode(items[k]) + rest)
  {
    hide Encode, EncodeAll;
    assert items[..k + 1] == items[..k] + [items[k]];
    EncodeAllAppend(items[..k], items[k]);
    Regroup(EncodeAll(items[..k]), Encode(items[k]), rest);
  }

  lemma Regroup(a: string, b: string, c: string)
    ensures (a + b) + c == a + (b + c)
  {
  }

  lemma EncodeAllNone()
    ensures EncodeAll([]) == ""
  {
    hide Encode;
  }

  lemma EncodeAllFirst(items: seq<Reply>)
    requires items != []
    ensures EncodeAll(items) == Encode(items[0]) + EncodeAll(items[1..])
  {
    hide Encode;
  }

  lemma {:induction false} EncodeAllAppend(items: seq<Reply>, last: Reply)
    ensures EncodeAll(items + [last]) == EncodeAll(items) + Encode(last)
    decreases |items|
  {
    hide Encode, EncodeAll;
    EncodeAllFirst(items + [last]);
    EncodeAllNone();
    if items == [] {
      assert (items + [last])[1..] == [];
    } else {
      assert (items + [last])[1..] == items[1..] + [last];
      EncodeAllAppend(items[1..], last);
      EncodeAllFirst(items);
      Regroup(Encode(items[0]), EncodeAll(items[1..]), Encode(last));
    }
  }

  lemma NothingBefore(items: seq<Reply>, rest: string)
    ensures items[..0] == [] && EncodeAll(items[..0]) + rest == rest
  {
    hide Encode;
  }

  /** The first j items can be sent at that depth. */
  ghost predicate FirstSendable(items: seq<Reply>, j: nat, depth: nat)
    requires j <= |items|
  {
    forall i :: 0 <= i < j ==> Sendable(items[i], depth)
  }

  lemma FirstSendableLast(items: seq<Reply>, k: nat, depth: nat)
    requires k < |items| && FirstSendable(items, k + 1, depth)
    ensures Sendable(items[k], depth) && FirstSendable(items, k, depth)
  {
  }

  /** The first j items of an array that has more to come fill its frame. */
  lemma {:induction false} DrainItems(frames: seq<Frame>, t: Reply, j: nat, rest: string)
    requires t.Array? && |frames| < MAX_FRAMES && j < |t.items|
    requires FirstSendable(t.items, j, MAX_FRAMES - |frames| - 1)
    ensures Drain(State(Opened(frames, t.items, 0), None), EncodeAll(t.items[..j]) + rest)
      == Drain(State(Opened(frames, t.items, j), None), rest)
    decreases t, 0, j
  {
    var items := t.items;
    hide Encode, EncodeAll, Drain, Step, Complete, ReadsAs, Sendable, FirstSendable, Opened;
    if j == 0 {
      NothingBefore(items, rest);
    } else {
      var k := j - 1;
      var tail := Encode(items[k]) + rest;
      var open := Opened(frames, items, k);
      FirstSendableLast(items, k, MAX_FRAMES - |frames| - 1);
      EncodeNext(items, k, rest);
      DrainItems(frames, t, k, tail);
      DrainEncoded(open, items[k], rest);
      CompleteInner(frames, items, k, rest);
    }
  }

  /** A tree nested one level too deep is refused, after the parts before it have been read. */
  lemma {:induction false} DrainTooDeep(frames: seq<Frame>, t: Reply, depth: nat, rest: string)
    requires |frames| <= MAX_FRAMES
    requires Sendable(t, depth) && !Sendable(t, MAX_FRAMES - |frames|)
    ensures Drain(State(frames, None), Encode(t) + rest) == Reading([], Some(NestingTooDeep), IDLE, "")
    decreases t
  {
    hide Encode, EncodeAll, Drain, Step, Opened;
    var items := t.items;
    ArrayHeader(items, rest);
    if |frames| == MAX_FRAMES {
      NoRoom(frames, Encode(t) + rest);
    } else {
      var k := FirstTooDeep(items, MAX_FRAMES - |frames| - 1, depth - 1);
      var open := Opened(frames, items, k);
      var after := EncodeAll(items[k + 1..]) + rest;
      ReadArrayHeader(frames, items, rest);
      SplitItems(items, k, rest);
      DrainItems(frames, t, k, Encode(items[k]) + after);
      DrainTooDeep(open, items[k], depth - 1, after);
    }
  }

  lemma NoRoom(frames: seq<Frame>, input: string)
    requires |frames| == MAX_FRAMES && input != "" && input[0] == '*'
    ensures Drain(State(frames, None), input) == Reading([], Some(NestingTooDeep), IDLE, "")
  {
    DrainTypeByte(frames, input);
  }

  lemma SplitItems(items: seq<Reply>, k: nat, rest: string)
    requires k < |items|
    ensures EncodeAll(items) + rest == EncodeAll(items[..k]) + (Encode(items[k]) + (EncodeAll(items[k + 1..]) + rest))
  {
    hide Encode, EncodeAll;
    EncodeAllSplit(items, k);
    Regroup(EncodeAll(items[..k]), Encode(items[k]) + EncodeAll(items[k + 1..]), rest);
    Regroup(Encode(items[k]), EncodeAll(items[k + 1..]), rest);
  }

  lemma {:induction false} EncodeAllSplit(items: seq<Reply>, k: nat)
    requires k < |items|
    ensures EncodeAll(items) == EncodeAll(items[..k]) + (Encode(items[k]) + EncodeAll(items[k + 1..]))
    decreases k
  {
    hide Encode, EncodeAll;
    EncodeAllFirst(items);
    if k == 0 {
      EncodeAllNone();
    } else {
      var first := items[..k];
      EncodeAllSplit(items[1..], k - 1);
      assert items[1..][..k - 1] == first[1..] && items[1..][k..] == items[k + 1..];
      EncodeAllFirst(first);
      Regroup(Encode(items[0]), EncodeAll(first[1..]), Encode(items[k]) + EncodeAll(items[k + 1..]));
    }
  }

  /** The first item of a list that needs more depth than is left. */
  lemma FirstTooDeep(items: seq<Reply>, left: nat, depth: nat) returns (k: nat)
    requires forall i :: 0 <= i < |items| ==> Sendable(items[i], depth)
    requires exists i :: 0 <= i < |items| && !Sendable(items[i], left)
    ensures k < |items| && !Sendable(items[k], left)
    ensures forall i :: 0 <= i < k ==> Sendable(items[i], left)
  {
    k := 0;
    while Sendable(items[k], left)
      invariant k < |items|
      invariant forall i :: 0 <= i < k ==> Sendable(items[i], left)
      invariant exists i :: k <= i < |items| && !Sendable(items[i], left)
      decreases |items| - k
    {
      k := k + 1;
    }
  }

  // ---------- what is refused ----------

  /** The canonical spelling of a 64-bit integer. */
  ghost predicate IsNumber(text: string) {
    exists n :: InLongLong(n) && text == Spelling(n)
  }

  function Refusal(e: ReadError): Reading { Reading([], Some(e), IDLE, "") }

  /** A failing step ends the reading, whatever was open and whatever follows. */
  lemma RefusedAt(frames: seq<Frame>, input: string, e: ReadError)
    requires input != "" && TypeOfByte(input[0]).Some?
    requires Step(State(frames, TypeOfByte(input[0])), input[1..]) == Fail(e)
    ensures Drain(State(frames, None), input) == Refusal(e)
  {
    DrainTypeByte(frames, input);
  }

  /** Whatever number a line spells, and none when it spells none. */
  lemma LineOfNumber(text: string, rest: string)
    requires NoCrLf(text)
    ensures var line := text + CRLF + rest;
      && FirstCrLf(line) == Some(|text|) && line[..|text|] == text
      && (forall n :: InLongLong(n) && text == Spelling(n) ==> ParseLongLong(line[..|text|]) == Some(n))
      && (!IsNumber(text) ==> ParseLongLong(line[..|text|]) == None)
  {
    hide FirstCrLf, Spelling;
    LineOf(text, rest);
    forall n | InLongLong(n) && text == Spelling(n) ensures ParseLongLong(text) == Some(n) {
      ParseLongLongCanonical(text, n);
    }
  }

  lemma RefusedType(frames: seq<Frame>, b: char, rest: string)
    requires b !in "-+:$*"
    ensures Drain(State(frames, None), [b] + rest) == Refusal(BadTypeByte(b))
  {
    hide StepLine, StepBulk, StepArray;
    assert "-+:$*"[0] == '-' && "-+:$*"[1] == '+' && "-+:$*"[2] == ':' && "-+:$*"[3] == '$' && "-+:$*"[4] == '*';
    assert ([b] + rest)[0] == b;
  }

  lemma RefusedInteger(frames: seq<Frame>, text: string, rest: string)
    requires NoCrLf(text) && !IsNumber(text)
    ensures Drain(State(frames, None), ":" + text + CRLF + rest) == Refusal(BadInteger)
  {
    hide StepBulk, StepArray, FirstCrLf, ParseLongLong, Complete, IsNumber;
    LineTail(":", text, rest);
    LineOfNumber(text, rest);
    RefusedAt(frames, ":" + text + CRLF + rest, BadInteger);
  }

  /** A bulk length is no number, or below -1. */
  lemma RefusedBulk(frames: seq<Frame>, text: string, n: int, rest: string)
    requires NoCrLf(text)
    ensures !IsNumber(text) ==> Drain(State(frames, None), "$" + text + CRLF + rest) == Refusal(BadBulkLength)
    ensures InLongLong(n) && text == Spelling(n) && n < -1 ==>
      Drain(State(frames, None), "$" + text + CRLF + rest) == Refusal(BulkLengthOutOfRange)
  {
    hide StepLine, StepArray, FirstCrLf, ParseLongLong, Complete, IsNumber, Spelling;
    LineTail("$", text, rest);
    LineOfNumber(text, rest);
    var input := "$" + text + CRLF + rest;
    if !IsNumber(text) {
      RefusedAt(frames, input, BadBulkLength);
    } else if InLongLong(n) && text == Spelling(n) && n < -1 {
      RefusedAt(frames, input, BulkLengthOutOfRange);
    }
  }

  /** A number of elements is no number, below -1, or above the range of int; or there is no task for another array. */
  lemma RefusedArray(frames: seq<Frame>, text: string, n: int, rest: string)
    requires NoCrLf(text) && |frames| <= MAX_FRAMES
    ensures var r := Drain(State(frames, None), "*" + text + CRLF + rest);
      && (|frames| == MAX_FRAMES ==> r == Refusal(NestingTooDeep))
      && (|frames| < MAX_FRAMES && !IsNumber(text) ==> r == Refusal(BadMultiBulkLength))
      && (|frames| < MAX_FRAMES && InLongLong(n) && text == Spelling(n) && (n < -1 || n > INT_MAX) ==>
            r == Refusal(MultiBulkLengthOutOfRange))
  {
    hide StepLine, StepBulk, FirstCrLf, ParseLongLong, Complete, IsNumber, Spelling;
    LineTail("*", text, rest);
    LineOfNumber(text, rest);
    var input := "*" + text + CRLF + rest;
    if |frames| == MAX_FRAMES {
      NoRoom(frames, input);
    } else if !IsNumber(text) {
      RefusedAt(frames, input, BadMultiBulkLength);
    } else if InLongLong(n) && text == Spelling(n) && (n < -1 || n > INT_MAX) {
      RefusedAt(frames, input, MultiBulkLengthOutOfRange);
    }
  }

  /** A tree that a server can send at some depth is read back from its encoding, whole and alone,
      exactly when its arrays are nested at most eight deep; otherwise the reader reports the depth. */
  lemma DecodeExactlyToDepthEight(t: Reply, depth: nat)
    requires Sendable(t, depth)
    ensures Sendable(t, 8) ==> Drain(IDLE, Encode(t)) == Reading([t], None, IDLE, "")
    ensures !Sendable(t, 8) ==> Drain(IDLE, Encode(t)) == Reading([], Some(NestingTooDeep), IDLE, "")
  {
    assert Encode(t) + "" == Encode(t);
    if Sendable(t, MAX_FRAMES) {
      DrainEncoded([], t, "");
      assert Complete([], t) == (IDLE, [t]);
    } else {
      DrainTooDeep([], t, depth, "");
    }
  }

  /** Every sequence of sendable replies is read back exactly, and every byte of it is consumed. */
  lemma {:induction false} DecodeEncoded(replies: seq<Reply>, rest: string)
    requires forall i :: 0 <= i < |replies| ==> Sendable(replies[i], MAX_FRAMES)
    ensures Drain(IDLE, EncodeAll(replies) + rest) == Prepend(replies, Drain(IDLE, rest))
    decreases |replies|
  {
    hide Encode, EncodeAll, Drain, Step;
    if replies == [] {
      EncodeAllNone();
      assert "" + rest == rest;
      PrependNothing(Drain(IDLE, rest));
    } else {
      var more := EncodeAll(replies[1..]) + rest;
      EncodeAllFirst(replies);
      Regroup(Encode(replies[0]), EncodeAll(replies[1..]), rest);
      DrainEncoded([], replies[0], more);
      assert Complete([], replies[0]) == (IDLE, [replies[0]]);
      DecodeEncoded(replies[1..], rest);
      PrependBoth([replies[0]], replies[1..], Drain(IDLE, rest));
      assert [replies[0]] + replies[1..] == replies;
    }
  }

  lemma PrependBoth(first: seq<Reply>, second: seq<Reply>, r: Reading)
    ensures Prepend(first, Prepend(second, r)) == Prepend(first + second, r)
  {
    assert first + (second + r.replies) == (first + second) + r.replies;
  }
}
