/** The incremental reply reader of redis/read.c: an input buffer with a cursor and a nine-slot task stack. */
module RespReader {
  import opened Common
  import opened Decimal
  import opened RespProtocol

  /** What the search of redis/read.c for CR LF finds: its length `_len` is an `int`, so it sees only so much. */
  function Sought(s: string): Option<nat> {
    var seen := AsInt32(|s| - 1);
    if 0 < seen <= |s| - 1 then FirstCrLf(s[..seen + 1]) else None
  }

  method SeekNewline(s: string) returns (r: Option<nat>)
    ensures r == Sought(s)
    ensures |s| <= INT_MAX + 1 ==> r == FirstCrLf(s)
  {
    hide FirstCrLf, AsInt32;
    var len := AsInt32(|s| - 1);
    SeenWhole(s);
    var pos := 0;
    while pos < len
      invariant 0 <= pos && (pos <= len || pos == 0) && len <= |s| - 1
      invariant forall k :: 0 <= k < pos ==> !(s[k] == '\r' && s[k + 1] == '\n')
      decreases len - pos
    {
      while pos < len && s[pos] != '\r'
        invariant 0 <= pos <= len
        invariant forall k :: 0 <= k < pos ==> !(s[k] == '\r' && s[k + 1] == '\n')
      {
        pos := pos + 1;
      }
      if pos == len {
        return None;
      }
      if s[pos + 1] == '\n' {
        FirstCrLfUnique(s[..len + 1], pos);
        return Some(pos);
      }
      pos := pos + 1;
    }
    return None;
  }

  lemma NotInPart(s: string, seen: int)
    requires 0 < seen <= |s| - 1 && FirstCrLf(s[..seen + 1]) == None
    ensures FirstCrLf(s) == None || FirstCrLf(s).value >= seen
  {
    hide FirstCrLf;
    var part := s[..seen + 1];
    assert forall i :: 0 <= i < |part| ==> part[i] == s[i];
  }

  lemma FoundInPart(s: string, seen: int)
    requires 0 < seen <= |s| - 1 && FirstCrLf(s[..seen + 1]).Some?
    ensures FirstCrLf(s) == FirstCrLf(s[..seen + 1]) && FirstCrLf(s).value < seen
  {
    hide FirstCrLf;
    assert s == s[..seen + 1] + s[seen + 1..];
    FirstCrLfStable(s[..seen + 1], s[seen + 1..]);
  }

  /** The search finds what is there exactly when nothing is there or it lies before the converted length. */
  lemma SoughtExactly(s: string)
    ensures Sought(s) == FirstCrLf(s) <==> FirstCrLf(s) == None || FirstCrLf(s).value < AsInt32(|s| - 1)
  {
    hide FirstCrLf, AsInt32;
    SeenWhole(s);
    var seen := AsInt32(|s| - 1);
    if seen > 0 {
      if FirstCrLf(s[..seen + 1]).Some? {
        FoundInPart(s, seen);
      } else {
        NotInPart(s, seen);
      }
    }
  }

  /** A line end at the very front of a buffer of 2^31 + 1 bytes is not found. */
  method MissedLineEnd() returns (s: string, r: Option<nat>)
    ensures |s| == INT_MAX + 2 && FirstCrLf(s) == Some(0) && r == None
  {
    s := "\r\n" + seq(INT_MAX, _ => 'x');
    FirstCrLfUnique(s, 0);
    r := SeekNewline(s);
  }

  /** Up to 2^31 bytes the search sees all of its input. */
  lemma SeenWhole(s: string)
    ensures AsInt32(|s| - 1) <= |s| - 1
    ensures |s| <= INT_MAX + 1 ==> AsInt32(|s| - 1) == |s| - 1
    ensures |s| <= 1 ==> FirstCrLf(s) == None
    ensures s[..|s|] == s
  {
  }

  const INT_MIN := -INT_MAX - 1

  /** The index into a string of `len` bytes that an `int` index stands for. */
  function FromStart(len: nat, index: int): (r: nat)
    requires INT_MIN <= index <= INT_MAX
    ensures len <= INT_MAX ==> r == if index >= 0 then index else if len + index >= 0 then len + index else 0
  {
    if index >= 0 then index
    else if AsInt32(len + index) < 0 then 0
    else AsInt32(len + index)
  }

  /** A length as an `int` never exceeds it, and is one more than that of a text one shorter unless it wraps. */
  lemma AsInt32Length(len: nat)
    ensures AsInt32(len) <= len
    ensures AsInt32(len) > 0 ==> AsInt32(len - 1) == AsInt32(len) - 1
  {
  }

  /**
   * `sdsrange(s, start, end)`: keeps the inclusive range, negative indices counting from the end. Indices are
   * `int`s, and so is the length that they are compared with.
   */
  method SdsRange(s: string, start0: int, end0: int) returns (r: string)
    requires INT_MIN <= start0 <= INT_MAX && INT_MIN <= end0 <= INT_MAX
    ensures var n := AsInt32(|s|);
      var lo := FromStart(|s|, start0);
      var hi := FromStart(|s|, end0);
      r == if |s| == 0 || lo > hi || lo >= n then "" else s[lo..if hi >= n then n else hi + 1]
  {
    hide AsInt32;
    var len := |s|;
    if len == 0 {
      return s;
    }
    AsInt32Length(len);
    var start, end := start0, end0;
    if start < 0 {
      start := AsInt32(len + start);
      if start < 0 { start := 0; }
    }
    if end < 0 {
      end := AsInt32(len + end);
      if end < 0 { end := 0; }
    }
    var newlen := if start > end then 0 else end - start + 1;
    if newlen != 0 {
      if start >= AsInt32(len) {
        newlen := 0;
      } else if end >= AsInt32(len) {
        end := AsInt32(len - 1);
        newlen := if start > end then 0 else end - start + 1;
      }
    } else {
      start := 0;
    }
    r := if newlen == 0 then "" else s[start..start + newlen];
  }

  lemma AppendBehind(buf: string, pos: nat, data: string)
    requires pos <= |buf|
    ensures (buf + data)[pos..] == buf[pos..] + data
  {
  }

  lemma SkipTwice(buf: string, pos: nat, more: nat)
    requires pos + more <= |buf|
    ensures buf[pos..][more..] == buf[pos + more..]
  {
  }

  /** One slot of the task stack. `items` holds what the array of this slot has collected. */
  datatype Task = Task(typ: Option<ItemType>, elements: int, idx: int, items: seq<Reply>)

  datatype Status = Ok | Err

  class Reader {
    var err: Option<ReadError>
    var buf: string
    var pos: nat
    var len: nat
    const maxbuf: nat
    var rstack: array<Task>
    var ridx: int
    var reply: Option<Reply>

    /** The arrays that are open, outermost first; kept in step with the slots below `ridx`. */
    ghost var open: seq<Frame>

    /** Below the current slot there are only arrays, each with its child index below its element count. */
    ghost predicate Valid()
      reads this, rstack
    {
      && rstack.Length == 9
      && -1 <= ridx <= 8
      && pos <= len == |buf|
      && (err.Some? ==> ridx == -1 && buf == "")
      && (reply.Some? ==> ridx == -1)
      && |open| == (if ridx < 0 then 0 else ridx)
      && (forall i :: 0 <= i < |open| ==>
            && rstack[i].typ == Some(ArrayItem)
            && rstack[i].elements == open[i].elements
            && rstack[i].items == open[i].items
            && |open[i].items| < open[i].elements)
      && (forall i :: 0 < i <= |open| ==> rstack[i].idx == |rstack[i - 1].items|)
    }

    /** The open arrays and the current item type: what the reader has understood so far. */
    ghost function Abs(): (st: State)
      requires Valid()
      reads this, rstack
      ensures WellFormed(st)
    {
      if ridx < 0 then IDLE else State(open, rstack[ridx].typ)
    }

    ghost function Unread(): string
      requires Valid()
      reads this, rstack
    {
      buf[pos..]
    }

    /** Between calls no array type byte is left pending in the ninth slot. */
    ghost predicate Resting()
      requires Valid()
      reads this, rstack
    {
      !(ridx == 8 && rstack[8].typ == Some(ArrayItem))
    }

    constructor (maxbuf: nat)
      ensures Valid() && Resting() && fresh(rstack)
      ensures err == None && reply == None && Abs() == IDLE && Unread() == "" && pos == len == 0
    {
      this.maxbuf := maxbuf;
      err, buf, pos, len := None, "", 0, 0;
      rstack := new Task[9](_ => Task(None, -1, -1, []));
      ridx, reply, open := -1, None, [];
    }

    method SetError(e: ReadError)
      requires Valid()
      modifies this
      ensures Valid() && Resting() && err == Some(e) && reply == None
      ensures rstack == old(rstack) && len == 0
    {
      reply := None;
      buf, pos, len := "", 0, 0;
      ridx, open := -1, [];
      err := Some(e);
    }

    /** Appends bytes. `spare` is the unused room the allocator left behind the buffer. */
    method Feed(data: string, spare: nat) returns (status: Status)
      requires Valid() && Resting()
      modifies this
      ensures Valid() && Resting() && rstack == old(rstack)
      ensures err == old(err) && reply == old(reply) && Abs() == old(Abs())
      ensures status == if old(err).Some? then Err else Ok
      ensures Unread() == if old(err).Some? then "" else old(Unread()) + data
      ensures len <= old(len) + |data|
    {
      if err.Some? {
        return Err;
      }
      ghost var unread := Unread();
      if |data| >= 1 {
        if len == 0 && maxbuf != 0 && spare > maxbuf {
          buf := "";
          pos := 0;
        }
        AppendBehind(buf, pos, data);
        buf := buf + data;
        len := |buf|;
      }
      assert Unread() == unread + data;
      return Ok;
    }

    /** Leaves the finished item, closing every array it fills, and says where to go on. */
    method MoveToNextTask(v: Reply)
      requires Valid() && ridx >= 0 && reply == None && err == None
      modifies `ridx, `open, `reply, rstack
      ensures Valid() && Resting()
      ensures var (st, emitted) := Complete(old(open), v);
        && Abs() == st
        && (ridx < 0 <==> reply.Some?)
        && emitted == Emitted()
    {
      var obj := v;
      while ridx > 0
        invariant Valid() && 0 <= ridx && reply == None && err == None
        invariant Complete(open, obj) == Complete(old(open), v)
        decreases ridx
      {
        var items := rstack[ridx - 1].items + [obj];
        if rstack[ridx].idx == rstack[ridx - 1].elements - 1 {
          obj := Array(items);
          open := open[..ridx - 1];
          ridx := ridx - 1;
        } else {
          NextSibling(items);
          return;
        }
      }
      ridx := -1;
      reply := Some(obj);
    }

    /** Stays in the array of the current slot and resets the slot for the next child. */
    method NextSibling(items: seq<Reply>)
      requires Valid() && ridx > 0 && reply == None && err == None
      requires |items| == |open[ridx - 1].items| + 1 < open[ridx - 1].elements
      modifies `open, rstack
      ensures Valid() && Resting()
      ensures Abs() == State(old(open[..ridx - 1]) + [Frame(old(open)[ridx - 1].elements, items)], None)
    {
      var cur, prv := rstack[ridx], rstack[ridx - 1];
      open := open[..ridx - 1] + [Frame(prv.elements, items)];
      rstack[ridx - 1] := prv.(items := items);
      rstack[ridx] := Task(None, -1, cur.idx + 1, cur.items);
    }

    ghost function Emitted(): seq<Reply>
      reads this
    {
      if reply.Some? then [reply.value] else []
    }

    /** Takes an item that has been read in full off the input. */
    method Finish(consumed: nat, v: Reply)
      requires Valid() && ridx >= 0 && reply == None && err == None
      requires consumed <= len - pos
      modifies `pos, `ridx, `open, `reply, rstack
      ensures Valid() && Resting()
      ensures Moved(Completed(consumed, old(Abs()).frames, v), old(Unread()))
    {
      hide Complete;
      ghost var unread := Unread();
      SkipTwice(buf, pos, consumed);
      pos := pos + consumed;
      MoveToNextTask(v);
    }

    /** The reader has made the move `o` on the input `unread`. */
    ghost predicate Moved(o: Outcome, unread: string)
      requires Valid()
      reads this, rstack
    {
      && o.Next?
      && o.consumed <= |unread|
      && err == None
      && Abs() == o.state
      && Unread() == unread[o.consumed..]
      && o.emitted == Emitted()
      && (ridx < 0 <==> reply.Some?)
    }

    /** After the outcome `o`: moved, failed with its error, or untouched for want of input. */
    ghost predicate Took(o: Outcome, status: Status, st: State, unread: string)
      requires Valid()
      reads this, rstack
    {
      match o
      case NeedMore => status == Err && err == None && reply == None && ridx >= 0 && Abs() == st && Unread() == unread
      case Fail(e) => status == Err && err == Some(e) && reply == None
      case Next(_, _, _) => status == Ok && Moved(o, unread)
    }

    method ProcessLineItem() returns (status: Status)
      requires Valid() && len <= INT_MAX && ridx >= 0 && reply == None && err == None
      requires rstack[ridx].typ.Some? && rstack[ridx].typ != Some(StringItem) && rstack[ridx].typ != Some(ArrayItem)
      modifies this, rstack
      ensures Valid() && Resting() && rstack == old(rstack) && len <= old(len)
      ensures Took(Step(old(Abs()), old(Unread())), status, old(Abs()), old(Unread()))
    {
      hide Complete, FirstCrLf, AsInt32, Sought;
      var line := SeekNewline(buf[pos..]);
      if line.None? {
        return Err;
      }
      var text := buf[pos..][..line.value];
      var obj;
      if rstack[ridx].typ == Some(IntegerItem) {
        var v := String2ll(text);
        if v.None? {
          SetError(BadInteger);
          return Err;
        }
        obj := Integer(v.value);
      } else if rstack[ridx].typ == Some(ErrorItem) {
        obj := Error(text);
      } else {
        obj := RespProtocol.Status(text);
      }
      Finish(line.value + 2, obj);
      return Ok;
    }

    method ProcessBulkItem() returns (status: Status)
      requires Valid() && len <= INT_MAX && ridx >= 0 && reply == None && err == None
      requires rstack[ridx].typ == Some(StringItem)
      modifies this, rstack
      ensures Valid() && Resting() && rstack == old(rstack) && len <= old(len)
      ensures Took(Step(old(Abs()), old(Unread())), status, old(Abs()), old(Unread()))
    {
      hide Complete, FirstCrLf, AsInt32, Sought;
      var unread := buf[pos..];
      assert Step(Abs(), unread) == StepBulk(open, unread);
      var line := SeekNewline(unread);
      if line.None? {
        return Err;
      }
      var bytelen := line.value + 2;
      var length := String2ll(unread[..line.value]);
      if length.None? {
        SetError(BadBulkLength);
        return Err;
      }
      if length.value < -1 {
        SetError(BulkLengthOutOfRange);
        return Err;
      }
      if length.value == -1 {
        Finish(bytelen, Nil);
        return Ok;
      }
      bytelen := bytelen + length.value + 2;
      assert |unread| == len - pos;
      if pos + bytelen <= len {
        Finish(bytelen, Str(unread[line.value + 2..line.value + 2 + length.value]));
        return Ok;
      }
      return Err;
    }

    method ProcessMultiBulkItem() returns (status: Status)
      requires Valid() && len <= INT_MAX && ridx >= 0 && reply == None && err == None
      requires rstack[ridx].typ == Some(ArrayItem)
      modifies this, rstack
      ensures Valid() && Resting() && rstack == old(rstack) && len <= old(len)
      ensures Took(Step(old(Abs()), old(Unread())), status, old(Abs()), old(Unread()))
    {
      hide Complete, FirstCrLf, AsInt32, Sought;
      if ridx == 8 {
        SetError(NestingTooDeep);
        return Err;
      }
      var unread := buf[pos..];
      var line := SeekNewline(unread);
      if line.None? {
        return Err;
      }
      var elements := String2ll(unread[..line.value]);
      if elements.None? {
        SetError(BadMultiBulkLength);
        return Err;
      }
      if elements.value < -1 || elements.value > INT_MAX {
        SetError(MultiBulkLengthOutOfRange);
        return Err;
      }
      if elements.value == -1 {
        Finish(line.value + 2, Nil);
      } else if elements.value == 0 {
        Finish(line.value + 2, Array([]));
      } else {
        OpenArray(line.value + 2, elements.value);
      }
      return Ok;
    }

    /** Starts an array: the current slot becomes its parent, the next one its first child. */
    method OpenArray(consumed: nat, elements: int)
      requires Valid() && 0 <= ridx < 8 && reply == None && err == None
      requires rstack[ridx].typ == Some(ArrayItem) && 0 < elements && consumed <= len - pos
      modifies this, rstack
      ensures Valid() && Resting() && rstack == old(rstack) && len == old(len)
      ensures Moved(Next(consumed, State(old(Abs()).frames + [Frame(elements, [])], None), []), old(Unread()))
    {
      ghost var unread := Unread();
      pos := pos + consumed;
      rstack[ridx] := rstack[ridx].(elements := elements, items := []);
      open := open + [Frame(elements, [])];
      ridx := ridx + 1;
      rstack[ridx] := Task(None, -1, 0, []);
      assert Unread() == unread[consumed..];
    }

    /** Reads the type byte if it is missing, then tries the item itself. */
    method ProcessItem() returns (status: Status)
      requires Valid() && len <= INT_MAX && Resting() && ridx >= 0 && reply == None && err == None
      modifies this, rstack
      ensures Valid() && Resting() && rstack == old(rstack) && len <= old(len)
      ensures status == Ok ==> err == None && |Unread()| < |old(Unread())| && (ridx < 0 <==> reply.Some?)
      ensures status == Ok ==> Drain(old(Abs()), old(Unread())) == Onward()
      ensures status == Err && err.Some? ==> Drain(old(Abs()), old(Unread())) == Reading([], err, IDLE, "") && reply == None
      ensures status == Err && err.None? ==> ridx >= 0 && reply == None && Drain(old(Abs()), old(Unread())) == Reading([], None, Abs(), Unread())
    {
      hide Drain;
      ghost var st0, in0 := Abs(), Unread();
      DrainStep(st0, in0);
      if rstack[ridx].typ.None? {
        if len - pos < 1 {
          return Err;
        }
        var b := buf[pos];
        if TypeOfByte(b).None? {
          SetError(BadTypeByte(b));
          return Err;
        }
        pos := pos + 1;
        rstack[ridx] := rstack[ridx].(typ := TypeOfByte(b));
        assert Unread() == in0[1..];
        DrainTypeByte(st0.frames, in0);
      }
      DrainStep(Abs(), Unread());
      if rstack[ridx].typ == Some(StringItem) {
        status := ProcessBulkItem();
      } else if rstack[ridx].typ == Some(ArrayItem) {
        status := ProcessMultiBulkItem();
      } else {
        status := ProcessLineItem();
      }
      PrependNothing(Drain(Abs(), Unread()));
    }

    /** What the rest of the input will give, the finished reply included. */
    ghost function Onward(): Reading
      requires Valid() && err == None
      reads this, rstack
    {
      if reply.Some? then Prepend([reply.value], Drain(Abs(), Unread())) else Drain(Abs(), Unread())
    }

    /** Delivers the next reply of the stream, nothing when more input is needed, or the error. */
    method GetReply() returns (status: Status, result: Option<Reply>)
      requires Valid() && len <= INT_MAX && Resting() && reply == None
      modifies this, rstack
      ensures Valid() && Resting() && reply == None && rstack == old(rstack)
      ensures len <= old(len) && pos < 1024
      ensures old(err).Some? ==> status == Err && result == None && err == old(err)
      ensures old(err).None? ==>
        var d := Drain(old(Abs()), old(Unread()));
        if result.Some? then status == Ok && err == None && d == Prepend([result.value], Drain(Abs(), Unread()))
        else if status == Ok then err == None && d == Reading([], None, Abs(), Unread())
        else err.Some? && d == Reading([], err, IDLE, "")
      ensures result.Some? ==> |Unread()| < |old(Unread())|
    {
      hide Drain, Reader.Valid, Reader.Abs, Reader.Unread, Reader.Resting;
      Bounds();
      if err.Some? {
        return Err, None;
      }
      if len == 0 {
        NothingToRead();
        return Ok, None;
      }
      StartItem();
      ProcessItems();
      Bounds();
      if err.Some? {
        return Err, None;
      }
      DiscardConsumed();
      result := EmitReply();
      return Ok, result;
    }

    lemma Bounds()
      requires Valid()
      ensures pos <= len && -1 <= ridx
      ensures err.Some? ==> len == 0 && Abs() == IDLE && Unread() == ""
      ensures ridx < 0 ==> Abs() == IDLE
    {
    }

    lemma NothingToRead()
      requires Valid() && Resting() && len == 0
      ensures Drain(Abs(), Unread()) == Reading([], None, Abs(), Unread())
    {
      hide Drain;
      DrainStep(Abs(), Unread());
    }

    /** Sets the first item to process when the stack is empty. */
    method StartItem()
      requires Valid() && Resting() && err == None && reply == None
      modifies `ridx, rstack
      ensures Valid() && Resting() && ridx >= 0
      ensures Abs() == old(Abs()) && Unread() == old(Unread())
    {
      if ridx == -1 {
        rstack[0] := Task(None, -1, -1, []);
        ridx := 0;
      }
    }

    /** Hands over the reply when there is one. */
    method EmitReply() returns (result: Option<Reply>)
      requires Valid() && Resting() && (ridx < 0 <==> reply.Some?)
      modifies `reply
      ensures Valid() && Resting() && reply == None && result == old(reply)
      ensures Abs() == old(Abs()) && Unread() == old(Unread())
      ensures result.Some? ==> Abs() == IDLE
    {
      result := None;
      if ridx == -1 {
        result := reply;
        reply := None;
      }
    }

    /** The inner loop of redisReaderGetReply. */
    method ProcessItems()
      requires Valid() && len <= INT_MAX && Resting() && ridx >= 0 && reply == None && err == None
      modifies this, rstack
      ensures Valid() && Resting() && rstack == old(rstack) && len <= old(len)
      ensures ridx < 0 <==> reply.Some? || err.Some?
      ensures reply.Some? ==> err == None && Drain(old(Abs()), old(Unread())) == Prepend([reply.value], Drain(IDLE, Unread()))
      ensures reply.Some? ==> |Unread()| < |old(Unread())|
      ensures reply.None? ==> Drain(old(Abs()), old(Unread())) == Reading([], err, Abs(), Unread())
    {
      while ridx >= 0
        invariant Valid() && Resting() && err == None && rstack == old(rstack)
        invariant ridx < 0 <==> reply.Some?
        invariant len <= old(len)
        invariant Onward() == Drain(old(Abs()), old(Unread()))
        invariant |Unread()| <= |old(Unread())| && (reply.Some? ==> |Unread()| < |old(Unread())|)
        decreases ridx >= 0, |Unread()|
      {
        var status := ProcessItem();
        if status == Err {
          break;
        }
      }
    }

    /** Drops the consumed part of the buffer once it has reached 1024 bytes. */
    method DiscardConsumed()
      requires Valid() && Resting() && len <= INT_MAX
      modifies `buf, `pos, `len
      ensures Valid() && Resting() && Unread() == old(Unread()) && len <= old(len) && pos < 1024
      ensures ridx == old(ridx) && Abs() == old(Abs())
    {
      if pos >= 1024 {
        ghost var unread := Unread();
        buf := SdsRange(buf, AsInt32(pos), -1);
        pos := 0;
        len := |buf|;
        assert buf == unread;
      }
    }

    /** Takes every reply that is there, as redisProcessCallbacks does after each read. */
    method TakeReplies() returns (replies: seq<Reply>)
      requires Valid() && len <= INT_MAX && Resting() && reply == None
      modifies this, rstack
      ensures Valid() && Resting() && reply == None && rstack == old(rstack) && len <= old(len) && pos < 1024
      ensures old(err).Some? ==> replies == [] && err == old(err)
      ensures old(err).None? ==> var d := Drain(old(Abs()), old(Unread()));
        d.replies == replies && d.error == err && (err.None? ==> d.state == Abs() && d.rest == Unread())
    {
      hide Drain;
      ghost var d := Drain(Abs(), Unread());
      replies := [];
      var status, next := GetReply();
      while next.Some?
        invariant Valid() && Resting() && reply == None && rstack == old(rstack) && len <= old(len) && pos < 1024
        invariant old(err).Some? ==> replies == [] && err == old(err) && next == None
        invariant old(err).None? && next.Some? ==> err.None? && d == Prepend(replies + [next.value], Drain(Abs(), Unread()))
        invariant old(err).None? && next.None? ==> d == Prepend(replies, Reading([], err, d.state, d.rest))
        invariant old(err).None? && next.None? && err.None? ==> d.state == Abs() && d.rest == Unread()
        decreases next.Some?, |Unread()|
      {
        replies := replies + [next.value];
        status, next := GetReply();
      }
    }

    /** One piece of input, and every reply it completes. `before` is all the input so far. */
    method FeedPiece(ghost before: string, piece: string, spare: nat) returns (more: seq<Reply>)
      requires Valid() && Resting() && reply == None && pos < 1024
      requires var d := Drain(IDLE, before); err == d.error && (err.None? ==> Abs() == d.state && Unread() == d.rest)
      requires |Drain(IDLE, before).rest| + 1023 + |piece| <= INT_MAX || len + |piece| <= INT_MAX
      modifies this, rstack
      ensures Valid() && Resting() && reply == None && rstack == old(rstack) && pos < 1024 && len <= old(len) + |piece|
      ensures var d := Drain(IDLE, before + piece);
        && d.replies == Drain(IDLE, before).replies + more
        && err == d.error && (err.None? ==> Abs() == d.state && Unread() == d.rest)
    {
      hide Drain;
      assert len == pos + |Unread()|;
      DrainSplit(IDLE, before, piece);
      var status := Feed(piece, spare);
      more := TakeReplies();
    }

    static lemma NothingFed(pieces: seq<string>)
      ensures Drain(IDLE, Concat(pieces[..0])) == NOTHING_READ
    {
      assert Concat(pieces[..0]) == "";
    }

    /**
     * Split invariance of the code: whatever the cuts, the replies and the error are those of the stream. The
     * stream may be of any length: only what is unread at one time, with the at most 1023 bytes in front of it
     * that are not yet discarded, must stay within the `int` range that the search for CR LF can see, and that
     * not before as many bytes have come at all.
     */
    method FeedPieces(pieces: seq<string>, spares: seq<nat>) returns (replies: seq<Reply>)
      requires Valid() && Resting() && reply == None && err == None && Abs() == IDLE && Unread() == "" && pos < 1024
      requires |spares| == |pieces|
      requires forall i :: 0 <= i < |pieces| ==>
        || |Drain(IDLE, Concat(pieces[..i])).rest| + 1023 + |pieces[i]| <= INT_MAX
        || len + |Concat(pieces[..i])| + |pieces[i]| <= INT_MAX
      modifies this, rstack
      ensures Valid() && Resting()
      ensures var d := Drain(IDLE, Concat(pieces));
        replies == d.replies && err == d.error && (err.None? ==> Abs() == d.state && Unread() == d.rest)
    {
      hide Drain, Concat, Reader.Valid, Reader.Abs, Reader.Unread, Reader.Resting;
      replies := [];
      NothingFed(pieces);
      for i := 0 to |pieces|
        invariant Valid() && Resting() && reply == None && rstack == old(rstack) && pos < 1024
        invariant len <= old(len) + |Concat(pieces[..i])|
        invariant var d := Drain(IDLE, Concat(pieces[..i]));
          replies == d.replies && err == d.error && (err.None? ==> Abs() == d.state && Unread() == d.rest)
      {
        assert pieces[..i + 1] == pieces[..i] + [pieces[i]];
        ConcatAppend(pieces[..i], pieces[i]);
        var more := FeedPiece(Concat(pieces[..i]), pieces[i], spares[i]);
        replies := replies + more;
      }
      assert pieces[..|pieces|] == pieces;
    }
  }
}
