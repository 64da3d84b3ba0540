/** Double-buffered logging: front-end appends and one writer thread (log/async_logging.cc, log/log_stream.h). */
module AsyncLogging {
  import opened Common
  import Decimal

  const LARGE_BUFFER := 4000 * 1000
  const MAX_BATCH := 25

  /** detail::FixedBuffer<kLargeBuffer>: a cursor advancing over a fixed array. */
  class FixedBuffer {
    const data: array<char>
    var cur: nat

    ghost predicate Valid()
      reads this
    {
      cur <= data.Length == LARGE_BUFFER
    }

    ghost function Contents(): string
      requires Valid()
      reads this, data
    {
      data[..cur]
    }

    constructor ()
      ensures Valid() && fresh(data) && Contents() == []
    {
      data := new char[LARGE_BUFFER];
      cur := 0;
    }

    function Avail(): int
      reads this
    {
      data.Length - cur
    }

    method Append(buf: string)
      requires Valid()
      modifies this, data
      ensures Valid() && Contents() == Appended(old(Contents()), buf)
    {
      if Avail() > |buf| {
        ghost var before := data[..cur];
        forall i | 0 <= i < |buf| {
          data[cur + i] := buf[i];
        }
        assert data[..cur] == before;
        assert data[cur..cur + |buf|] == buf;
        assert data[..cur + |buf|] == data[..cur] + data[cur..cur + |buf|];
        cur := cur + |buf|;
      }
    }

    method Reset()
      requires Valid()
      modifies this
      ensures Valid() && Contents() == []
    {
      cur := 0;
    }
  }

  /** A buffer takes a text whole or, without room for one byte more than it, not at all. */
  function Appended(buffer: string, text: string): (r: string)
    ensures |r| < LARGE_BUFFER || r == buffer
  {
    if LARGE_BUFFER - |buffer| > |text| then buffer + text else buffer
  }

  /** The line that stands for dropped buffers, cut to the 255 bytes of its buffer. */
  function Notice(now: string, count: nat): string {
    var line := "Dropped log messages at " + now + ", " + Decimal.Numeral(count) + " larger buffers\n";
    if |line| > 255 then line[..255] else line
  }

  const NOTICE_END := " larger buffers\n"

  /** The number in front of the last words of a notice. */
  function CountIn(notice: string): nat
    requires |notice| >= |NOTICE_END|
  {
    var s := notice[..|notice| - |NOTICE_END|];
    Decimal.Value(s[|s| - TrailingDigits(s)..])
  }

  function TrailingDigits(s: string): (n: nat)
    ensures n <= |s| && Decimal.AllDigits(s[|s| - n..])
  {
    if s == [] || !Decimal.IsDigit(s[|s| - 1]) then 0
    else
      var n := TrailingDigits(s[..|s| - 1]);
      assert s[|s| - 1 - n..] == s[..|s| - 1][|s| - 1 - n..] + [s[|s| - 1]];
      1 + n
  }

  lemma {:induction false} DigitsBehind(before: string, digits: string)
    requires Decimal.AllDigits(digits) && before != [] && !Decimal.IsDigit(before[|before| - 1])
    ensures TrailingDigits(before + digits) == |digits|
    decreases |digits|
  {
    var s := before + digits;
    if digits != [] {
      DigitsBehind(before, digits[..|digits| - 1]);
      assert s[..|s| - 1] == before + digits[..|digits| - 1];
    } else {
      assert s == before;
    }
  }

  /** A notice that is not cut names the number of dropped buffers. */
  lemma NoticeCounts(now: string, count: nat)
    requires |Notice(now, count)| < 255
    ensures Notice(now, count)[|Notice(now, count)| - |NOTICE_END|..] == NOTICE_END && CountIn(Notice(now, count)) == count
  {
    hide Decimal.Numeral, Decimal.Value, TrailingDigits;
    Decimal.ValueOfNumeral(count);
    var before := "Dropped log messages at " + now + ", ";
    var s := before + Decimal.Numeral(count);
    var notice := Notice(now, count);
    assert notice == s + NOTICE_END;
    assert notice[..|notice| - |NOTICE_END|] == s;
    DigitsBehind(before, Decimal.Numeral(count));
    assert s[|before|..] == Decimal.Numeral(count);
  }

  /** Where the writer thread stands in its loop. */
  datatype Phase = Waiting | Taken | Writing(next: nat)

  /** What happens next: a thread logs a line, or the writer moves on. */
  datatype Event = Line(text: string) | Writer(now: string)

  /**
   * What the double buffering amounts to: a queue of full buffers, the buffer being filled, the writer's batch
   * and the log file. The spare buffers that are passed around do not show.
   */
  datatype Pipeline = Pipeline(queue: seq<string>, current: string, batch: seq<string>, phase: Phase, file: string)

  const EMPTY := Pipeline([], [], [], Waiting, [])

  /** A line that no buffer can take is dropped. */
  function Kept(line: string): string {
    if |line| < LARGE_BUFFER then line else []
  }

  function AfterLine(p: Pipeline, line: string): Pipeline {
    if LARGE_BUFFER - |p.current| > |line| then p.(current := p.current + line)
    else p.(queue := p.queue + [p.current], current := Kept(line))
  }

  function AfterTake(p: Pipeline): Pipeline {
    p.(queue := [], current := [], batch := p.queue + [p.current], phase := Taken)
  }

  /** A batch of more than 25 buffers keeps its first two, and a notice goes to the file. */
  function AfterCut(p: Pipeline, now: string): Pipeline {
    if |p.batch| > MAX_BATCH then
      p.(batch := p.batch[..2], phase := Writing(0), file := p.file + Notice(now, |p.batch| - 2))
    else
      p.(phase := Writing(0))
  }

  function AfterWrite(p: Pipeline): Pipeline
    requires p.phase.Writing? && p.phase.next < |p.batch|
  {
    p.(phase := Writing(p.phase.next + 1), file := p.file + p.batch[p.phase.next])
  }

  function AfterRefill(p: Pipeline): Pipeline {
    p.(batch := [], phase := Waiting)
  }

  function AfterEvent(p: Pipeline, e: Event): Pipeline {
    match e
    case Line(text) => AfterLine(p, text)
    case Writer(now) =>
      match p.phase
      case Waiting => AfterTake(p)
      case Taken => AfterCut(p, now)
      case Writing(next) => if next < |p.batch| then AfterWrite(p) else AfterRefill(p)
  }

  function AfterAll(schedule: seq<Event>): Pipeline {
    if schedule == [] then EMPTY
    else AfterEvent(AfterAll(schedule[..|schedule| - 1]), schedule[|schedule| - 1])
  }

  /** All the bytes of the lines that fit a buffer, in the order of their appends. */
  function Logged(schedule: seq<Event>): string {
    if schedule == [] then []
    else
      var last := schedule[|schedule| - 1];
      Logged(schedule[..|schedule| - 1]) + (if last.Line? then Kept(last.text) else [])
  }

  /** The buffers that the writer took together, and the time it looked at how many they are. */
  datatype Batch = Batch(buffers: seq<string>, now: string)

  /** Every batch the writer has looked at, with all of its buffers, oldest first. */
  function Batches(schedule: seq<Event>): seq<Batch> {
    if schedule == [] then []
    else
      var before := schedule[..|schedule| - 1];
      var last := schedule[|schedule| - 1];
      Batches(before)
      + (if last.Writer? && AfterAll(before).phase == Taken then [Batch(AfterAll(before).batch, last.now)] else [])
  }

  /** What was logged in those batches. */
  function LogText(batches: seq<Batch>): string {
    if batches == [] then []
    else LogText(batches[..|batches| - 1]) + Concat(batches[|batches| - 1].buffers)
  }

  /** What the file shows of them: all the bytes, but of a batch above 25 only a notice and two buffers. */
  function FileText(batches: seq<Batch>): string {
    if batches == [] then []
    else FileText(batches[..|batches| - 1]) + Shown(batches[|batches| - 1])
  }

  function Shown(b: Batch): string {
    if |b.buffers| > MAX_BATCH then Notice(b.now, |b.buffers| - 2) + Concat(b.buffers[..2]) else Concat(b.buffers)
  }

  /** The part of a batch already looked at that is not yet written. */
  function Unwritten(p: Pipeline): string {
    if p.phase.Writing? && p.phase.next <= |p.batch| then Concat(p.batch[p.phase.next..]) else []
  }

  /** What was logged after the batches already looked at. */
  function Untaken(p: Pipeline): string {
    (if p.phase == Taken then Concat(p.batch) else []) + (Concat(p.queue) + p.current)
  }

  /** Everything in memory, in order: the rest of the batch in hand, the queue, the buffer being filled. */
  function Memory(p: Pipeline): string {
    match p.phase
    case Waiting => Concat(p.queue) + p.current
    case Taken => Concat(p.batch) + (Concat(p.queue) + p.current)
    case Writing(next) =>
      (if next <= |p.batch| then Concat(p.batch[next..]) else []) + (Concat(p.queue) + p.current)
  }

  /** File and memory account for every byte in order. */
  ghost predicate Accounts(p: Pipeline, batches: seq<Batch>, logged: string) {
    && (p.phase.Writing? ==> p.phase.next <= |p.batch|)
    && p.file + Unwritten(p) == FileText(batches)
    && logged == LogText(batches) + Untaken(p)
  }

  lemma LineAccounts(p: Pipeline, batches: seq<Batch>, logged: string, line: string)
    requires Accounts(p, batches, logged)
    ensures Accounts(AfterLine(p, line), batches, logged + Kept(line))
  {
    hide Concat, FileText, LogText, Unwritten;
    var after := AfterLine(p, line);
    assert Concat(after.queue) + after.current == (Concat(p.queue) + p.current) + Kept(line) by {
      ConcatAppend(p.queue, p.current);
      assert p.current + line == p.current + line + [];
    }
    assert Unwritten(after) == Unwritten(p) by {
      SameUnwritten(p, after);
    }
    AddBehind(LogText(batches), if p.phase == Taken then Concat(p.batch) else [], Concat(p.queue) + p.current, Kept(line));
  }

  lemma SameUnwritten(p: Pipeline, q: Pipeline)
    requires p.phase == q.phase && p.batch == q.batch
    ensures Unwritten(p) == Unwritten(q)
  {
  }

  lemma AddBehind(a: string, b: string, c: string, d: string)
    ensures a + (b + c) + d == a + (b + (c + d))
  {
  }

  lemma TakeAccounts(p: Pipeline, batches: seq<Batch>, logged: string)
    requires p.phase == Waiting && Accounts(p, batches, logged)
    ensures Accounts(AfterTake(p), batches, logged)
  {
    hide FileText, LogText;
    ConcatAppend(p.queue, p.current);
    ConcatNone(AfterTake(p).queue);
  }

  lemma CutAccounts(p: Pipeline, batches: seq<Batch>, logged: string, now: string)
    requires p.phase == Taken && Accounts(p, batches, logged)
    ensures Accounts(AfterCut(p, now), batches + [Batch(p.batch, now)], logged)
  {
    hide Concat, Notice, FileText, LogText;
    BatchAppend(batches, Batch(p.batch, now));
    var after := AfterCut(p, now);
    assert after.batch[0..] == after.batch;
    CutText(p.file, FileText(batches), if |p.batch| > MAX_BATCH then Notice(now, |p.batch| - 2) else [], Concat(after.batch));
    CutLog(LogText(batches), Concat(p.batch), Concat(p.queue) + p.current);
  }

  lemma BatchAppend(batches: seq<Batch>, b: Batch)
    ensures FileText(batches + [b]) == FileText(batches) + Shown(b)
    ensures LogText(batches + [b]) == LogText(batches) + Concat(b.buffers)
  {
    assert (batches + [b])[..|batches|] == batches;
  }

  lemma CutText(file: string, shown: string, notice: string, rest: string)
    requires file + [] == shown
    ensures file + notice + rest == shown + (notice + rest) && file + rest == shown + rest
  {
  }

  lemma CutLog(log: string, batch: string, front: string)
    ensures log + (batch + front) == log + batch + ([] + front)
  {
  }

  lemma WriteAccounts(p: Pipeline, batches: seq<Batch>, logged: string)
    requires p.phase.Writing? && p.phase.next < |p.batch| && Accounts(p, batches, logged)
    ensures Accounts(AfterWrite(p), batches, logged)
  {
    hide Concat, FileText, LogText;
    ConcatFirst(p.batch, p.phase.next);
  }

  lemma ConcatFirst(bs: seq<string>, k: nat)
    requires k < |bs|
    ensures Concat(bs[k..]) == bs[k] + Concat(bs[k + 1..])
  {
    assert bs[k..][1..] == bs[k + 1..];
  }

  lemma RefillAccounts(p: Pipeline, batches: seq<Batch>, logged: string)
    requires p.phase == Writing(|p.batch|) && Accounts(p, batches, logged)
    ensures Accounts(AfterRefill(p), batches, logged)
  {
    hide Concat, FileText, LogText;
    ConcatNone(p.batch[|p.batch|..]);
  }

  /**
   * Any interleaving: the batches hold the log up to what the writer has not looked at, and the file with the
   * rest of the batch in hand is those batches, with buffers from the third on missing where there were over 25.
   */
  lemma {:induction false} EveryByteAccounted(schedule: seq<Event>)
    ensures Accounts(AfterAll(schedule), Batches(schedule), Logged(schedule))
  {
    if schedule != [] {
      var before := schedule[..|schedule| - 1];
      EveryByteAccounted(before);
      EventAccounts(AfterAll(before), Batches(before), Logged(before), schedule[|schedule| - 1]);
      assert Logged(schedule) == Logged(before) + (if schedule[|schedule| - 1].Line? then Kept(schedule[|schedule| - 1].text) else []);
    }
  }

  lemma EventAccounts(p: Pipeline, batches: seq<Batch>, logged: string, e: Event)
    requires Accounts(p, batches, logged)
    ensures Accounts(AfterEvent(p, e),
                     batches + (if e.Writer? && p.phase == Taken then [Batch(p.batch, e.now)] else []),
                     logged + (if e.Line? then Kept(e.text) else []))
  {
    hide Accounts, AfterLine, AfterTake, AfterCut, AfterWrite, AfterRefill;
    assert batches + [] == batches && logged + [] == logged;
    match e
    case Line(text) => LineAccounts(p, batches, logged, text);
    case Writer(now) =>
      match p.phase
      case Waiting => TakeAccounts(p, batches, logged);
      case Taken => CutAccounts(p, batches, logged, now);
      case Writing(next) =>
        WritingInside(p, batches, logged);
        if next < |p.batch| {
          WriteAccounts(p, batches, logged);
        } else {
          RefillAccounts(p, batches, logged);
        }
  }

  lemma WritingInside(p: Pipeline, batches: seq<Batch>, logged: string)
    requires p.phase.Writing? && Accounts(p, batches, logged)
    ensures p.phase.next <= |p.batch|
  {
  }

  lemma {:induction false} SmallBatchesShown(batches: seq<Batch>)
    requires forall i :: 0 <= i < |batches| ==> |batches[i].buffers| <= MAX_BATCH
    ensures FileText(batches) == LogText(batches)
  {
    hide Concat;
    if batches != [] {
      SmallBatchesShown(batches[..|batches| - 1]);
    }
  }

  /** While no batch exceeds 25 buffers, the file and then the memory are exactly the log, in order. */
  lemma NothingLost(schedule: seq<Event>)
    requires forall i :: 0 <= i < |Batches(schedule)| ==> |Batches(schedule)[i].buffers| <= MAX_BATCH
    ensures Logged(schedule) == AfterAll(schedule).file + Memory(AfterAll(schedule))
  {
    hide Concat, FileText, LogText, Batches, Logged, AfterAll;
    EveryByteAccounted(schedule);
    SmallBatchesShown(Batches(schedule));
    var p := AfterAll(schedule);
    assert p.file + Unwritten(p) + Untaken(p) == p.file + Memory(p) by {
      Regroup(p.file, Unwritten(p), Untaken(p));
    }
  }

  lemma Regroup(a: string, b: string, c: string)
    ensures a + b + c == a + (b + c) && [] + c == c
  {
  }

  // ---------- when a buffer is full ----------

  /** What lines leave in a buffer. */
  function Text(lines: seq<string>): (r: string)
    ensures |r| <= Size(lines)
  {
    if lines == [] then [] else Text(lines[..|lines| - 1]) + Kept(lines[|lines| - 1])
  }

  /** All their bytes, those of lines that no buffer can take included. */
  function Size(lines: seq<string>): nat {
    if lines == [] then 0 else Size(lines[..|lines| - 1]) + |lines[|lines| - 1]|
  }

  function Join(groups: seq<seq<string>>): seq<string> {
    if groups == [] then [] else Join(groups[..|groups| - 1]) + groups[|groups| - 1]
  }

  /** Behind a text of that length a buffer has room for the line. */
  predicate HasRoom(length: nat, line: string) { length + |line| < LARGE_BUFFER }

  /** The buffer holds these lines, and each line from the k-th on was put where there was room for it. */
  ghost predicate Holds(buffer: string, lines: seq<string>, k: nat) {
    buffer == Text(lines) && forall j :: k <= j < |lines| ==> HasRoom(|Text(lines[..j])|, lines[j])
  }

  /** The buffers hold these groups of lines; each group but the first starts with a line for which the buffer before it had no room. */
  ghost predicate Filled(buffers: seq<string>, groups: seq<seq<string>>) {
    && |buffers| == |groups| > 0 && Holds(buffers[0], groups[0], 0)
    && forall i :: 1 <= i < |groups| ==>
         groups[i] != [] && !HasRoom(|buffers[i - 1]|, groups[i][0]) && Holds(buffers[i], groups[i], 1)
  }

  /** The buffers are what comes of these lines when a line goes to a new buffer exactly if there is no room for it. */
  ghost predicate Packed(buffers: seq<string>, lines: seq<string>) {
    exists groups :: Filled(buffers, groups) && Join(groups) == lines
  }

  /** The lines appended since the writer last took the buffers. */
  function Since(schedule: seq<Event>): seq<string> {
    if schedule == [] then []
    else
      var before, last := schedule[..|schedule| - 1], schedule[|schedule| - 1];
      if last.Line? then Since(before) + [last.text]
      else if AfterAll(before).phase == Waiting then [] else Since(before)
  }

  /** The lines appended between the last two times that the writer took the buffers. */
  function InHand(schedule: seq<Event>): seq<string> {
    if schedule == [] then []
    else
      var before, last := schedule[..|schedule| - 1], schedule[|schedule| - 1];
      if last.Writer? && AfterAll(before).phase == Waiting then Since(before) else InHand(before)
  }

  /** The lines of every batch that the writer has looked at. */
  function BatchLines(schedule: seq<Event>): seq<seq<string>> {
    if schedule == [] then []
    else
      var before, last := schedule[..|schedule| - 1], schedule[|schedule| - 1];
      BatchLines(before) + (if last.Writer? && AfterAll(before).phase == Taken then [InHand(before)] else [])
  }

  function AllLines(schedule: seq<Event>): seq<string> {
    if schedule == [] then []
    else
      var last := schedule[|schedule| - 1];
      AllLines(schedule[..|schedule| - 1]) + (if last.Line? then [last.text] else [])
  }

  /** One event more. */
  lemma Extended(before: seq<Event>, e: Event)
    ensures var s := before + [e]; var phase := AfterAll(before).phase;
      && AfterAll(s) == AfterEvent(AfterAll(before), e)
      && Since(s) == (if e.Line? then Since(before) + [e.text] else if phase == Waiting then [] else Since(before))
      && InHand(s) == (if e.Writer? && phase == Waiting then Since(before) else InHand(before))
      && BatchLines(s) == BatchLines(before) + (if e.Writer? && phase == Taken then [InHand(before)] else [])
      && AllLines(s) == AllLines(before) + (if e.Line? then [e.text] else [])
  {
    hide AfterEvent;
    assert (before + [e])[..|before|] == before;
  }

  /** The batches take the lines in order, and leave out none. */
  lemma {:induction false} LinesInOrder(schedule: seq<Event>)
    ensures AllLines(schedule) ==
      Join(BatchLines(schedule)) + (if AfterAll(schedule).phase == Taken then InHand(schedule) else []) + Since(schedule)
  {
    if schedule != [] {
      hide AfterAll, AfterEvent, Since, InHand, BatchLines, AllLines, Join;
      var before, last := schedule[..|schedule| - 1], schedule[|schedule| - 1];
      assert schedule == before + [last];
      LinesInOrder(before);
      Extended(before, last);
      PhaseBehind(AfterAll(before), last);
      JoinAppend(BatchLines(before), InHand(before));
      Pieces(Join(BatchLines(before)), InHand(before), Since(before), if last.Line? then [last.text] else []);
      assert BatchLines(before) + [] == BatchLines(before);
    }
  }

  lemma Pieces(taken: seq<string>, hand: seq<string>, since: seq<string>, more: seq<string>)
    ensures taken + hand + (since + more) == taken + hand + since + more
    ensures taken + [] + (since + more) == taken + [] + since + more
    ensures taken + hand + [] + since == taken + hand + since
    ensures taken + since + [] == taken + [] + since
    ensures taken + [] + since + [] == taken + [] + since && taken + hand + since + [] == taken + hand + since
  {
  }

  lemma JoinAppend(groups: seq<seq<string>>, g: seq<string>)
    ensures Join(groups + [g]) == Join(groups) + g
  {
    assert (groups + [g])[..|groups|] == groups;
  }

  /** How the writer's loop moves on. */
  lemma PhaseBehind(p: Pipeline, e: Event)
    ensures var q := AfterEvent(p, e).phase;
      if e.Line? then q == p.phase
      else if p.phase == Waiting then q == Taken
      else if p.phase == Taken then q == Writing(0)
      else q.Writing? || q == Waiting
  {
  }

  lemma NothingPacked()
    ensures Packed([[]], [])
  {
    var groups: seq<seq<string>> := [[]];
    assert Filled([[]], groups);
    assert groups[..0] == [];
    assert Join(groups) == Join([]) + [];
  }

  lemma TextAppend(lines: seq<string>, line: string)
    ensures Text(lines + [line]) == Text(lines) + Kept(line) && Size(lines + [line]) == Size(lines) + |line|
  {
    assert (lines + [line])[..|lines|] == lines;
  }

  lemma HoldsOneMore(buffer: string, lines: seq<string>, k: nat, line: string)
    requires Holds(buffer, lines, k) && HasRoom(|buffer|, line)
    ensures Holds(buffer + line, lines + [line], k)
  {
    hide Text;
    var more := lines + [line];
    TextAppend(lines, line);
    forall j | k <= j < |more| ensures HasRoom(|Text(more[..j])|, more[j]) {
      if j < |lines| {
        assert more[..j] == lines[..j] && more[j] == lines[j];
      } else {
        assert more[..j] == lines;
      }
    }
  }

  /** A line goes where it should. */
  lemma LinePacks(p: Pipeline, line: string, lines: seq<string>)
    requires Packed(p.queue + [p.current], lines)
    ensures var q := AfterLine(p, line); Packed(q.queue + [q.current], lines + [line])
  {
    hide Filled, Join, Kept;
    var buffers := p.queue + [p.current];
    var groups :| Filled(buffers, groups) && Join(groups) == lines;
    FilledShape(buffers, groups);
    if HasRoom(|p.current|, line) {
      LineFits(p.queue, p.current, groups, line);
      JoinLast(groups, line);
    } else {
      LineDoesNotFit(buffers, groups, line);
      JoinAppend(groups, [line]);
      assert AfterLine(p, line).queue == buffers;
    }
  }

  lemma JoinLast(groups: seq<seq<string>>, line: string)
    requires groups != []
    ensures var n := |groups| - 1; Join(groups[..n] + [groups[n] + [line]]) == Join(groups) + [line]
  {
    var n := |groups| - 1;
    JoinAppend(groups[..n], groups[n] + [line]);
    assert Join(groups[..n]) + (groups[n] + [line]) == Join(groups[..n]) + groups[n] + [line];
  }

  lemma LineFits(queue: seq<string>, current: string, groups: seq<seq<string>>, line: string)
    requires Filled(queue + [current], groups) && HasRoom(|current|, line)
    ensures var n := |groups| - 1; Filled(queue + [current + line], groups[..n] + [groups[n] + [line]])
  {
    hide Holds, HasRoom;
    var n := |groups| - 1;
    var earlier, later := queue + [current], queue + [current + line];
    var gs := groups[..n] + [groups[n] + [line]];
    assert |queue| == n && earlier[n] == current && later[n] == current + line;
    HoldsOneMore(current, groups[n], if n == 0 then 0 else 1, line);
    forall i | 1 <= i < |gs|
      ensures gs[i] != [] && !HasRoom(|later[i - 1]|, gs[i][0]) && Holds(later[i], gs[i], 1)
    {
      assert later[i - 1] == earlier[i - 1] && gs[i][0] == groups[i][0];
      if i < n {
        assert later[i] == earlier[i] && gs[i] == groups[i];
      }
    }
  }

  lemma LineDoesNotFit(buffers: seq<string>, groups: seq<seq<string>>, line: string)
    requires Filled(buffers, groups) && !HasRoom(|buffers[|buffers| - 1]|, line)
    ensures Filled(buffers + [Kept(line)], groups + [[line]])
  {
    hide Holds, HasRoom, Kept;
    OneLine(line);
    var bs, gs := buffers + [Kept(line)], groups + [[line]];
    forall i | 1 <= i < |gs|
      ensures gs[i] != [] && !HasRoom(|bs[i - 1]|, gs[i][0]) && Holds(bs[i], gs[i], 1)
    {
      assert bs[i - 1] == buffers[i - 1];
      if i < |groups| {
        assert bs[i] == buffers[i] && gs[i] == groups[i];
      }
    }
  }

  lemma OneLine(line: string)
    ensures Holds(Kept(line), [line], 1)
  {
    TextAppend([], line);
    assert [] + [line] == [line];
    assert Text([]) + Kept(line) == Kept(line);
  }

  /** At any moment, the queue with the buffer being filled is packed with the lines since the last take, and so is
      the batch in hand with the lines before it. */
  lemma {:induction false} AlwaysPacked(schedule: seq<Event>)
    ensures var p := AfterAll(schedule); Packed(p.queue + [p.current], Since(schedule))
    ensures AfterAll(schedule).phase == Taken ==> Packed(AfterAll(schedule).batch, InHand(schedule))
  {
    hide Packed;
    NothingPacked();
    if schedule == [] {
      assert EMPTY.queue + [EMPTY.current] == [[]];
    } else {
      hide AfterAll, AfterLine, AfterCut, AfterWrite, AfterRefill, Since, InHand;
      var before, last := schedule[..|schedule| - 1], schedule[|schedule| - 1];
      assert schedule == before + [last];
      AlwaysPacked(before);
      Extended(before, last);
      var p := AfterAll(before);
      PhaseBehind(p, last);
      Untouched(p, last);
      if last.Line? {
        LinePacks(p, last.text, Since(before));
      } else if p.phase == Waiting {
        assert AfterTake(p).queue + [AfterTake(p).current] == [[]];
      }
    }
  }

  /** Lines leave the batch alone, and a writer that is at work leaves the queue alone. */
  lemma Untouched(p: Pipeline, e: Event)
    ensures var q := AfterEvent(p, e);
      if e.Line? then q.batch == p.batch else p.phase != Waiting ==> q.queue == p.queue && q.current == p.current
  {
  }

  /** Every batch is packed with its lines. */
  lemma {:induction false} BatchesPacked(schedule: seq<Event>)
    ensures |BatchLines(schedule)| == |Batches(schedule)|
    ensures forall i :: 0 <= i < |Batches(schedule)| ==> Packed(Batches(schedule)[i].buffers, BatchLines(schedule)[i])
  {
    hide Packed, AfterAll;
    if schedule != [] {
      var before := schedule[..|schedule| - 1];
      BatchesPacked(before);
      AlwaysPacked(before);
    }
  }

  lemma {:induction false} HeadTail(groups: seq<seq<string>>)
    requires |groups| >= 2
    ensures Size(Join(groups)) == Size(Join(groups[..|groups| - 2])) + Size(groups[|groups| - 2]) + Size(groups[|groups| - 1])
  {
    var n := |groups|;
    assert groups[..n - 1][..n - 2] == groups[..n - 2];
    SizeJoin(Join(groups[..n - 2]), groups[n - 2]);
    SizeJoin(Join(groups[..n - 1]), groups[n - 1]);
  }

  lemma {:induction false} SizeJoin(a: seq<string>, b: seq<string>)
    ensures Size(a + b) == Size(a) + Size(b)
    decreases |b|
  {
    if b == [] {
      assert a + b == a;
    } else {
      assert (a + b)[..|a + b| - 1] == a + b[..|b| - 1];
      SizeJoin(a, b[..|b| - 1]);
    }
  }

  lemma {:induction false} FirstLineSize(lines: seq<string>)
    requires lines != []
    ensures Size(lines) >= |lines[0]|
    decreases |lines|
  {
    if |lines| > 1 {
      FirstLineSize(lines[..|lines| - 1]);
    }
  }

  /** Two buffers in a row have at least the bytes of one full buffer between them. */
  lemma {:induction false} FilledSize(buffers: seq<string>, groups: seq<seq<string>>)
    requires Filled(buffers, groups)
    ensures Size(Join(groups)) >= |groups| / 2 * LARGE_BUFFER
    decreases |groups|
  {
    hide Holds, Text, Size, Join;
    var n := |groups|;
    if n >= 2 {
      HeadTail(groups);
      FirstLineSize(groups[n - 1]);
      LastPair(buffers, groups);
      if n >= 4 {
        FilledPrefix(buffers, groups);
        FilledSize(buffers[..n - 2], groups[..n - 2]);
      }
      assert n / 2 == (n - 2) / 2 + 1;
    }
  }

  lemma LastPair(buffers: seq<string>, groups: seq<seq<string>>)
    requires Filled(buffers, groups) && |groups| >= 2
    ensures var n := |groups|; groups[n - 1] != [] && Size(groups[n - 2]) + |groups[n - 1][0]| >= LARGE_BUFFER
  {
    hide Text, Size;
    var n := |groups|;
    assert Holds(buffers[n - 2], groups[n - 2], if n == 2 then 0 else 1);
    assert |Text(groups[n - 2])| <= Size(groups[n - 2]);
  }

  lemma FilledPrefix(buffers: seq<string>, groups: seq<seq<string>>)
    requires Filled(buffers, groups) && |groups| >= 4
    ensures var n := |groups|; Filled(buffers[..n - 2], groups[..n - 2])
  {
    hide Holds, HasRoom;
  }

  /** 52 million bytes fill 26 buffers at the worst. */
  const SAFE_SIZE := 52_000_000

  lemma PackedSize(buffers: seq<string>, lines: seq<string>)
    requires Packed(buffers, lines)
    ensures Size(lines) >= |buffers| / 2 * LARGE_BUFFER
    ensures Size(lines) < SAFE_SIZE ==> |buffers| <= MAX_BATCH
    ensures Size(lines) < LARGE_BUFFER ==> |buffers| == 1
  {
    hide Filled;
    var groups :| Filled(buffers, groups) && Join(groups) == lines;
    FilledSize(buffers, groups);
    assert |groups| == |buffers| > 0 by { FilledShape(buffers, groups); }
  }

  lemma FilledShape(buffers: seq<string>, groups: seq<seq<string>>)
    requires Filled(buffers, groups)
    ensures |groups| == |buffers| > 0
  {
  }

  /** While the lines since the last take are less than a buffer in all, no buffer is full. */
  lemma OneBuffer(schedule: seq<Event>)
    requires Size(Since(schedule)) < LARGE_BUFFER
    ensures AfterAll(schedule).queue == []
  {
    hide Packed;
    AlwaysPacked(schedule);
    var p := AfterAll(schedule);
    PackedSize(p.queue + [p.current], Since(schedule));
  }

  /** Nothing is lost if less than 52 million bytes are logged between any two times that the writer takes the buffers. */
  lemma NothingLostBelow(schedule: seq<Event>)
    requires forall i :: 0 <= i < |BatchLines(schedule)| ==> Size(BatchLines(schedule)[i]) < SAFE_SIZE
    ensures forall i :: 0 <= i < |Batches(schedule)| ==> |Batches(schedule)[i].buffers| <= MAX_BATCH
    ensures Logged(schedule) == AfterAll(schedule).file + Memory(AfterAll(schedule))
  {
    hide Packed, Batches, BatchLines, AfterAll, Logged, Memory;
    BatchesPacked(schedule);
    forall i | 0 <= i < |Batches(schedule)| ensures |Batches(schedule)[i].buffers| <= MAX_BATCH {
      PackedSize(Batches(schedule)[i].buffers, BatchLines(schedule)[i]);
    }
    NothingLost(schedule);
  }

  // ---------- the bound is sharp ----------

  /** Lines that fill a buffer to its last free byte and lines of one byte, in turn. */
  function Alternating(big: string, pairs: nat): seq<Event> {
    if pairs == 0 then [] else Alternating(big, pairs - 1) + [Line(big)] + [Line("x")]
  }

  /** Each of them starts a new buffer. */
  lemma {:induction false} OneBufferEach(big: string, pairs: nat)
    requires |big| == LARGE_BUFFER - 1 && pairs > 0
    ensures var p := AfterAll(Alternating(big, pairs)); |p.queue| == 2 * pairs - 1 && p.current == "x" && p.phase == Waiting
    ensures Size(Since(Alternating(big, pairs))) == pairs * LARGE_BUFFER
  {
    hide AfterAll, Since, Size, Alternating, AfterLine;
    var before := Alternating(big, pairs - 1);
    AlternatingNext(big, pairs);
    OnePair(before, big);
    if pairs == 1 {
      NothingLogged(big);
      FirstPair(EMPTY, big);
    } else {
      OneBufferEach(big, pairs - 1);
      NextPair(AfterAll(before), big);
    }
  }

  lemma OnePair(before: seq<Event>, big: string)
    ensures var s := before + [Line(big)] + [Line("x")];
      && AfterAll(s) == AfterLine(AfterLine(AfterAll(before), big), "x")
      && Size(Since(s)) == Size(Since(before)) + |big| + 1
  {
    hide AfterAll, Since, Size, AfterLine;
    Extended(before, Line(big));
    Extended(before + [Line(big)], Line("x"));
    TextAppend(Since(before), big);
    TextAppend(Since(before) + [big], "x");
  }

  lemma AlternatingNext(big: string, pairs: nat)
    requires pairs > 0
    ensures Alternating(big, pairs) == Alternating(big, pairs - 1) + [Line(big)] + [Line("x")]
  {
  }

  lemma NothingLogged(big: string)
    ensures AfterAll(Alternating(big, 0)) == EMPTY && Since(Alternating(big, 0)) == [] && Size([]) == 0
  {
  }

  lemma FirstPair(p: Pipeline, big: string)
    requires p == EMPTY && |big| == LARGE_BUFFER - 1
    ensures AfterLine(AfterLine(p, big), "x") == p.(queue := [big], current := "x")
  {
    assert [] + big == big;
  }

  lemma NextPair(p: Pipeline, big: string)
    requires p.current == "x" && |big| == LARGE_BUFFER - 1
    ensures AfterLine(AfterLine(p, big), "x") == p.(queue := p.queue + ["x"] + [big], current := "x")
  {
  }

  /** 26 such lines, 52 million bytes, make a batch that is cut. */
  lemma SharpBound(big: string)
    requires |big| == LARGE_BUFFER - 1
    ensures var s := Alternating(big, 13) + [Writer([])];
      && Size(InHand(s)) == SAFE_SIZE && AfterAll(s).phase == Taken && |AfterAll(s).batch| == 26 > MAX_BATCH
  {
    hide Size, AfterAll, InHand, Since, Alternating;
    OneBufferEach(big, 13);
    Extended(Alternating(big, 13), Writer([]));
  }

  /**
   * The front end and the writer's local variables. Each buffer is owned by one std::unique_ptr at a time,
   * so a buffer is its bytes here, and a moved-from pointer is None.
   */
  class Logger {
    var currentBuffer: string
    var nextBuffer: Option<string>
    var buffers: seq<string>
    var newBuffer1: Option<string>
    var newBuffer2: Option<string>
    var buffersToWrite: seq<string>
    var phase: Phase
    /** What reached the log file. */
    var output: string

    ghost function View(): Pipeline
      reads this
    {
      Pipeline(buffers, currentBuffer, buffersToWrite, phase, output)
    }

    /**
     * Without a spare buffer the queue is not empty, so the writer's batch has a buffer to give back for
     * each pointer it handed out.
     */
    ghost predicate Valid()
      reads this
    {
      && (nextBuffer == None ==> buffers != [])
      && (nextBuffer == None || nextBuffer == Some([]))
      && (newBuffer1 == None || newBuffer1 == Some([])) && (newBuffer2 == None || newBuffer2 == Some([]))
      && (if phase == Waiting then newBuffer1 != None && newBuffer2 != None && buffersToWrite == []
          else newBuffer1 == None && buffersToWrite != [] && (newBuffer2 == None ==> |buffersToWrite| >= 2))
      && (phase.Writing? ==> phase.next <= |buffersToWrite| <= MAX_BATCH)
    }

    constructor ()
      ensures Valid() && View() == EMPTY
    {
      currentBuffer, nextBuffer, buffers := [], Some([]), [];
      newBuffer1, newBuffer2, buffersToWrite, phase, output := Some([]), Some([]), [], Waiting, [];
    }

    /** append, under the lock, at any moment of the writer's loop. */
    method Append(line: string)
      requires Valid()
      modifies this`currentBuffer, this`nextBuffer, this`buffers
      ensures Valid() && View() == AfterLine(old(View()), line)
    {
      if LARGE_BUFFER - |currentBuffer| > |line| {
        currentBuffer := Appended(currentBuffer, line);
      } else {
        buffers := buffers + [currentBuffer];
        if nextBuffer != None {
          currentBuffer := nextBuffer.value;
          nextBuffer := None;
        } else {
          currentBuffer := [];
        }
        currentBuffer := Appended(currentBuffer, line);
      }
    }

    /** The writer's locked region: takes the queue with the current buffer, whatever is in it. */
    method Take()
      requires Valid() && phase == Waiting
      modifies this
      ensures Valid() && View() == AfterTake(old(View())) && nextBuffer != None
    {
      buffers := buffers + [currentBuffer];
      currentBuffer := newBuffer1.value;
      newBuffer1 := None;
      buffersToWrite, buffers := buffers, buffersToWrite;
      if nextBuffer == None {
        nextBuffer := newBuffer2;
        newBuffer2 := None;
      }
      phase := Taken;
    }

    /** The size check of the batch just taken. */
    method CutBatch(now: string)
      requires Valid() && phase == Taken
      modifies this`buffersToWrite, this`output, this`phase
      ensures Valid() && View() == AfterCut(old(View()), now)
    {
      hide Notice;
      if |buffersToWrite| > MAX_BATCH {
        output := output + Notice(now, |buffersToWrite| - 2);
        buffersToWrite := buffersToWrite[..2];
      }
      phase := Writing(0);
    }

    /** output.append of one buffer of the batch. */
    method WriteOne()
      requires Valid() && phase.Writing? && phase.next < |buffersToWrite|
      modifies this`output, this`phase
      ensures Valid() && View() == AfterWrite(old(View()))
    {
      output := output + buffersToWrite[phase.next];
      phase := Writing(phase.next + 1);
    }

    /** Gives the writer its two empty buffers back out of the written batch. */
    method Refill()
      requires Valid() && phase == Writing(|buffersToWrite|)
      modifies this`newBuffer1, this`newBuffer2, this`buffersToWrite, this`phase
      ensures Valid() && View() == AfterRefill(old(View()))
    {
      if |buffersToWrite| > 2 {
        buffersToWrite := buffersToWrite[..2];
      }
      if newBuffer1 == None {
        assert buffersToWrite != [];
        buffersToWrite := buffersToWrite[..|buffersToWrite| - 1];
        newBuffer1 := Some([]);
      }
      if newBuffer2 == None {
        assert buffersToWrite != [];
        buffersToWrite := buffersToWrite[..|buffersToWrite| - 1];
        newBuffer2 := Some([]);
      }
      buffersToWrite := [];
      phase := Waiting;
    }

    /** The writer's next step. */
    method WriterStep(now: string)
      requires Valid()
      modifies this
      ensures Valid() && View() == AfterEvent(old(View()), Writer(now))
    {
      hide Notice;
      match phase
      case Waiting => Take();
      case Taken => CutBatch(now);
      case Writing(next) =>
        if next < |buffersToWrite| {
          WriteOne();
        } else {
          Refill();
        }
    }
  }

  /** Any interleaving from the start: file and memory account for all that was logged, in order. */
  method RunSchedule(schedule: seq<Event>) returns (logger: Logger)
    ensures fresh(logger) && logger.Valid() && logger.View() == AfterAll(schedule)
    ensures Packed(logger.buffers + [logger.currentBuffer], Since(schedule))
    ensures logger.output + Unwritten(logger.View()) == FileText(Batches(schedule))
    ensures Logged(schedule) == LogText(Batches(schedule)) + Untaken(logger.View())
    ensures (forall b :: b in Batches(schedule) ==> |b.buffers| <= MAX_BATCH) ==> (
              Logged(schedule) == logger.output + Memory(logger.View()))
    ensures (forall i :: 0 <= i < |BatchLines(schedule)| ==> Size(BatchLines(schedule)[i]) < SAFE_SIZE) ==> (
              Logged(schedule) == logger.output + Memory(logger.View()))
  {
    hide Concat, FileText, LogText, Batches, Logged, Memory, Unwritten, Untaken, Packed, Since, BatchLines, Size;
    logger := new Logger();
    for i := 0 to |schedule|
      invariant fresh(logger) && logger.Valid() && logger.View() == AfterAll(schedule[..i])
    {
      assert schedule[..i + 1][..i] == schedule[..i];
      match schedule[i]
      case Line(text) => logger.Append(text);
      case Writer(now) => logger.WriterStep(now);
    }
    assert schedule[..|schedule|] == schedule;
    EveryByteAccounted(schedule);
    AlwaysPacked(schedule);
    if forall i :: 0 <= i < |BatchLines(schedule)| ==> Size(BatchLines(schedule)[i]) < SAFE_SIZE {
      NothingLostBelow(schedule);
    }
    if forall b :: b in Batches(schedule) ==> |b.buffers| <= MAX_BATCH {
      NothingLost(schedule);
    }
  }
}
