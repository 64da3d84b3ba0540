/** The callback queue and the shutdown of the asynchronous Redis client (redis/async.c). */
module AsyncRedis {
  import opened Common

  /** A queued callback: which command it belongs to, and whether a function was given. */
  datatype Callback = Callback(id: nat, hasFn: bool)

  datatype Reply = Reply(isError: bool, payload: string)

  /** What a callback may do to its own context while it runs. */
  datatype Action = Issue(hasFn: bool) | FreeContext | Disconnect

  /** One execution of a callback; without a reply when the context goes away. */
  datatype Run = Run(id: nat, reply: Option<Reply>)

  // ---------- the queue ----------

  class Node {
    const cb: Callback
    var next: Node?

    constructor (cb: Callback)
      ensures this.cb == cb && next == null
    {
      this.cb, next := cb, null;
    }
  }

  ghost function Callbacks(nodes: seq<Node>): (r: seq<Callback>)
    ensures |r| == |nodes| && forall i :: 0 <= i < |nodes| ==> r[i] == nodes[i].cb
  {
    if nodes == [] then [] else [nodes[0].cb] + Callbacks(nodes[1..])
  }

  class CallbackList {
    var head: Node?
    var tail: Node?
    ghost var nodes: seq<Node>
    ghost var repr: set<Node>

    ghost predicate Valid()
      reads this, repr
    {
      && (forall i :: 0 <= i < |nodes| ==> nodes[i] in repr)
      && (nodes == [] ==> head == null && tail == null)
      && (nodes != [] ==> head == nodes[0] && tail == nodes[|nodes| - 1] && tail.next == null)
      && (forall i :: 0 <= i < |nodes| - 1 ==> nodes[i].next == nodes[i + 1])
      && (forall i, j :: 0 <= i < j < |nodes| ==> nodes[i] != nodes[j])
    }

    ghost function Contents(): (r: seq<Callback>)
      reads this
      ensures |r| == |nodes|
    {
      Callbacks(nodes)
    }

    constructor ()
      ensures Valid() && Contents() == [] && repr == {}
    {
      head, tail, nodes, repr := null, null, [], {};
    }

    /** __redisPushCallback */
    method Push(source: Callback)
      requires Valid()
      modifies this, repr
      ensures Valid() && Contents() == old(Contents()) + [source]
      ensures fresh(repr - old(repr))
    {
      var cb := new Node(source);
      if head == null {
        head := cb;
      }
      if tail != null {
        tail.next := cb;
      }
      tail := cb;
      nodes := nodes + [cb];
      repr := repr + {cb};
    }

    /** __redisShiftCallback */
    method Shift() returns (target: Option<Callback>)
      requires Valid()
      modifies this
      ensures Valid() && repr == old(repr)
      ensures old(Contents()) == [] ==> target == None && Contents() == []
      ensures old(Contents()) != [] ==> target == Some(old(Contents())[0]) && Contents() == old(Contents())[1..]
    {
      if head == null {
        return None;
      }
      var cb := head;
      head := cb.next;
      if cb == tail {
        tail := null;
      }
      nodes := nodes[1..];
      target := Some(cb.cb);
    }
  }

  // ---------- what the callbacks must see ----------

  /** The runs owed for the first |answers| commands: one each, in order, where a function was given. */
  ghost function Delivered(issued: seq<Callback>, answers: seq<Reply>): seq<Run>
    requires |answers| <= |issued|
  {
    if answers == [] then []
    else
      var k := |answers| - 1;
      Delivered(issued, answers[..k]) + (if issued[k].hasFn then [Run(issued[k].id, Some(answers[k]))] else [])
  }

  /** The runs owed to commands k and up when the context is freed. */
  ghost function Abandoned(issued: seq<Callback>, k: nat, end: nat): seq<Run>
    requires k <= end <= |issued|
    decreases end - k
  {
    if k == end then [] else Abandoned(issued, k, end - 1) + (if issued[end - 1].hasFn then [Run(issued[end - 1].id, None)] else [])
  }

  /** Accepting another command changes nothing that is owed so far. */
  lemma {:induction false} DeliveredGrows(issued: seq<Callback>, more: seq<Callback>, answers: seq<Reply>)
    requires |answers| <= |issued|
    ensures Delivered(issued + more, answers) == Delivered(issued, answers)
    decreases |answers|
  {
    if answers != [] {
      DeliveredGrows(issued, more, answers[..|answers| - 1]);
    }
  }

  lemma {:induction false} AbandonedGrows(issued: seq<Callback>, more: seq<Callback>, k: nat, end: nat)
    requires k <= end <= |issued|
    ensures Abandoned(issued + more, k, end) == Abandoned(issued, k, end)
    decreases end - k
  {
    if k < end {
      AbandonedGrows(issued, more, k, end - 1);
    }
  }

  ghost function Ids(log: seq<Run>): seq<nat> {
    if log == [] then [] else Ids(log[..|log| - 1]) + [log[|log| - 1].id]
  }

  /** The commands below n that came with a function. */
  ghost function Expecting(issued: seq<Callback>, n: nat): seq<nat>
    requires n <= |issued|
  {
    if n == 0 then [] else Expecting(issued, n - 1) + (if issued[n - 1].hasFn then [issued[n - 1].id] else [])
  }

  lemma IdsAppend(log: seq<Run>, r: Run)
    ensures Ids(log + [r]) == Ids(log) + [r.id]
  {
    assert (log + [r])[..|log|] == log;
  }

  /** Callbacks run in the order of their commands, each at most once, and none is left out before the last that ran. */
  lemma {:induction false} RunsInOrder(issued: seq<Callback>, answers: seq<Reply>, given: nat)
    requires |answers| <= given <= |issued|
    ensures Ids(Delivered(issued, answers) + Abandoned(issued, |answers|, given)) == Expecting(issued, given)
    decreases given
  {
    var a := |answers|;
    if given > a {
      RunsInOrder(issued, answers, given - 1);
      var before := Delivered(issued, answers) + Abandoned(issued, a, given - 1);
      if issued[given - 1].hasFn {
        var r := Run(issued[given - 1].id, None);
        IdsAppend(before, r);
        assert before + [r] == Delivered(issued, answers) + Abandoned(issued, a, given);
      } else {
        assert Delivered(issued, answers) + Abandoned(issued, a, given) == before;
      }
    } else if a > 0 {
      RunsInOrder(issued, answers[..a - 1], a - 1);
      var before := Delivered(issued, answers[..a - 1]);
      assert before + Abandoned(issued, a - 1, a - 1) == before;
      if issued[a - 1].hasFn {
        IdsAppend(before, Run(issued[a - 1].id, Some(answers[a - 1])));
      }
      assert Delivered(issued, answers) + Abandoned(issued, a, a) == Delivered(issued, answers);
    } else {
      assert Delivered(issued, answers) + Abandoned(issued, 0, 0) == [];
    }
  }

  /** With the commands numbered in order, `Expecting` names each expecting command exactly once. */
  lemma {:induction false} ExpectingOnce(issued: seq<Callback>, n: nat)
    requires n <= |issued| && forall k :: 0 <= k < |issued| ==> issued[k].id == k
    ensures forall i, j :: 0 <= i < j < |Expecting(issued, n)| ==> Expecting(issued, n)[i] < Expecting(issued, n)[j]
    ensures forall k :: k in Expecting(issued, n) <==> 0 <= k < n && issued[k].hasFn
  {
    if n > 0 {
      ExpectingOnce(issued, n - 1);
      var before := Expecting(issued, n - 1);
      forall i | 0 <= i < |before| ensures before[i] < n - 1 {
        assert before[i] in before;
      }
    }
  }

  /** What a command's callback was given: its own reply, by position. */
  lemma {:induction false} OwnReply(issued: seq<Callback>, answers: seq<Reply>, k: nat)
    requires k < |answers| <= |issued| && forall i :: 0 <= i < |issued| ==> issued[i].id == i
    ensures Run(k, Some(answers[k])) in Delivered(issued, answers) <==> issued[k].hasFn
    ensures forall r :: r in Delivered(issued, answers) ==> r.id < |answers|
    decreases |answers|
  {
    var last := |answers| - 1;
    var before := answers[..last];
    if k < last {
      OwnReply(issued, before, k);
    } else {
      EarlierRuns(issued, before);
    }
  }

  lemma {:induction false} EarlierRuns(issued: seq<Callback>, answers: seq<Reply>)
    requires |answers| <= |issued| && forall i :: 0 <= i < |issued| ==> issued[i].id == i
    ensures forall r :: r in Delivered(issued, answers) ==> r.id < |answers|
    decreases |answers|
  {
    if answers != [] {
      EarlierRuns(issued, answers[..|answers| - 1]);
    }
  }

  // ---------- the context ----------

  /** No callback asks for the end of the context. */
  ghost predicate IsQuiet(script: nat -> seq<Action>) {
    forall id, k :: 0 <= k < |script(id)| ==> script(id)[k].Issue?
  }

  class AsyncContext {
    const replies: CallbackList
    /** What the callback of each command does, whatever it is. */
    const script: nat -> seq<Action>
    var disconnecting: bool
    var freeing: bool
    var inCallback: bool
    var err: int
    var obuf: nat
    /** How many commands were accepted: the number of the next one. */
    var commands: nat
    var freed: bool
    /** The status given to the disconnect callback. */
    var disconnectStatus: Option<bool>

    /** All accepted commands, the replies received for them, and how many of them left the queue. */
    ghost var issued: seq<Callback>
    ghost var answers: seq<Reply>
    ghost var given: nat
    ghost var log: seq<Run>

    ghost predicate Valid()
      reads this, replies, replies.repr
    {
      ValidWith(log)
    }

    /** The queue holds the commands without an answer, and every other command's callback has run as it is owed. */
    ghost predicate ValidWith(runs: seq<Run>)
      reads this, replies, replies.repr
    {
      && replies.Valid() && |answers| <= given <= |issued| == commands
      && (forall k :: 0 <= k < |issued| ==> issued[k].id == k)
      && replies.Contents() == issued[given..]
      && runs == Delivered(issued, answers) + Abandoned(issued, |answers|, given)
      && (given > |answers| ==> disconnecting || freeing)
      && (freed ==> given == |issued|)
    }

    constructor (script: nat -> seq<Action>)
      ensures Valid() && Idle() && issued == [] && answers == [] && fresh(replies) && replies.repr == {}
      ensures this.script == script && !disconnecting && obuf == 0
    {
      replies := new CallbackList();
      this.script := script;
      disconnecting, freeing, inCallback, err, obuf, commands := false, false, false, 0, 0, 0;
      freed, disconnectStatus := false, None;
      issued, answers, given, log := [], [], 0, [];
    }

    /** Between the calls of the event loop, while the context is alive. */
    ghost predicate Idle()
      reads this
    {
      !freed && !inCallback && !freeing && err == 0 && given == |answers|
    }

    /** The context is to be given up, all its output is written, and every command is answered. */
    ghost predicate WoundUp()
      reads this, replies
    {
      disconnecting && obuf == 0 && replies.Contents() == []
    }

    /** What the context has been asked for, and what it has taken in. */
    ghost function Agenda(): (bool, bool, int, int)
      reads this
    {
      (disconnecting, freeing, |issued|, obuf)
    }

    /** What was asked for before stays asked for, and only callbacks that are not quiet ask for more; with the end
        in sight no command is accepted. */
    ghost predicate Follows(before: (bool, bool, int, int))
      reads this
    {
      && (before.0 ==> disconnecting) && (before.1 ==> freeing)
      && (IsQuiet(script) ==> disconnecting == before.0 && freeing == before.1)
      && (before.0 || before.1 ==> |issued| == before.2 && obuf == before.3)
    }

    /** __redisAsyncCommand for an ordinary command. */
    method AsyncCommand(hasFn: bool) returns (ok: bool)
      requires Valid() && !freed
      modifies this`obuf, this`commands, this`issued, replies, replies.repr
      ensures Valid() && ok == !(disconnecting || freeing)
      ensures issued == old(issued) + (if ok then [Callback(|old(issued)|, hasFn)] else [])
      ensures obuf == old(obuf) + (if ok then 1 else 0)
      ensures fresh(replies.repr - old(replies.repr))
    {
      if disconnecting || freeing {
        return false;
      }
      var cb := Callback(commands, hasFn);
      DeliveredGrows(issued, [cb], answers);
      AbandonedGrows(issued, [cb], |answers|, given);
      replies.Push(cb);
      issued := issued + [cb];
      commands := commands + 1;
      obuf := obuf + 1;
      ok := true;
    }

    /** __redisRunCallback: the callback's own calls find the flag set. */
    method RunCallback(cb: Callback, reply: Option<Reply>)
      requires !freed && !inCallback
      requires ValidWith(log + (if cb.hasFn then [Run(cb.id, reply)] else []))
      modifies this, replies, replies.repr
      ensures Valid() && !freed && !inCallback && err == old(err) && answers == old(answers) && given == old(given)
      ensures old(issued) <= issued && Follows(old(Agenda()))
      ensures fresh(replies.repr - old(replies.repr))
      decreases 1, 1
    {
      hide ValidWith;
      if cb.hasFn {
        Enter(cb.id, reply);
        var actions := script(cb.id);
        for i := 0 to |actions|
          invariant Valid() && !freed && inCallback && err == old(err) && answers == old(answers) && given == old(given)
          invariant old(issued) <= issued && Follows(old(Agenda()))
          invariant fresh(replies.repr - old(replies.repr))
        {
          match actions[i]
          case Issue(hasFn) =>
            var _ := AsyncCommand(hasFn);
          case FreeContext =>
            AsyncFree();
          case Disconnect =>
            AsyncDisconnect();
        }
        Leave();
      } else {
        assert log + [] == log;
      }
    }

    /** The function is called: from here on the context knows it is inside a callback. */
    method Enter(id: nat, reply: Option<Reply>)
      requires ValidWith(log + [Run(id, reply)])
      modifies this`inCallback, this`log
      ensures Valid() && inCallback
    {
      inCallback := true;
      log := log + [Run(id, reply)];
    }

    method Leave()
      requires Valid()
      modifies this`inCallback
      ensures Valid() && !inCallback
    {
      inCallback := false;
    }

    /** Everything is over: the queue is empty and all that was owed has run, with a reply or without. */
    ghost predicate Finished()
      reads this
    {
      freed && given == |issued|
    }

    /** Takes the next callback out of the queue and runs it without a reply; false when there is none. */
    method RunNext() returns (more: bool)
      requires Valid() && !freed && !inCallback && (disconnecting || freeing || replies.Contents() == [])
      modifies this, replies, replies.repr
      ensures Valid() && !freed && !inCallback && issued == old(issued) && answers == old(answers) && err == old(err)
      ensures (old(freeing) ==> freeing) && (old(disconnecting) ==> disconnecting) && fresh(replies.repr - old(replies.repr))
      ensures if more then disconnecting || freeing else given == |issued| && freeing == old(freeing)
      ensures given == old(given) + (if more then 1 else 0) <= |issued|
      ensures !more ==> obuf == old(obuf)
      decreases 1, 2
    {
      hide ValidWith;
      var cb := TakeAbandoned();
      if cb == None {
        return false;
      }
      RunCallback(cb.value, None);
      more := true;
    }

    /** Shifts the next callback, which is owed a run without a reply. */
    method TakeAbandoned() returns (cb: Option<Callback>)
      requires Valid() && !freed && (disconnecting || freeing || replies.Contents() == [])
      modifies this`given, replies
      ensures replies.repr == old(replies.repr)
      ensures cb == None ==> Valid() && given == old(given) == |issued|
      ensures cb != None ==> ValidWith(log + (if cb.value.hasFn then [Run(cb.value.id, None)] else []))
      ensures cb != None ==> given == old(given) + 1 <= |issued| && (disconnecting || freeing)
    {
      hide Delivered, Abandoned;
      cb := replies.Shift();
      if cb != None {
        given := given + 1;
        OneMoreAbandoned(issued, answers, given);
      }
    }

    /** Shifts the next callback, which is owed a run with this reply. */
    method TakeAnswered(reply: Reply) returns (cb: Option<Callback>)
      requires Valid() && !freed && given == |answers|
      modifies this`given, this`answers, replies
      ensures replies.repr == old(replies.repr) && given == |answers|
      ensures (cb == None) == (old(replies.Contents()) == [])
      ensures cb == None ==> Valid() && answers == old(answers) && replies.Contents() == []
      ensures cb != None ==> ValidWith(log + (if cb.value.hasFn then [Run(cb.value.id, Some(reply))] else []))
      ensures cb != None ==> answers == old(answers) + [reply] && |issued| - given == |old(replies.Contents())| - 1
    {
      hide Delivered, Abandoned;
      cb := replies.Shift();
      if cb != None {
        OneMoreDelivered(issued, answers, reply);
        answers := answers + [reply];
        given := given + 1;
      }
    }

    /** __redisAsyncFree: runs what is left in the queue without a reply. */
    method FreeNow()
      requires Valid() && !freed && !inCallback && given == |answers|
      requires disconnecting || freeing || replies.Contents() == []
      modifies this, replies, replies.repr
      ensures Valid() && Finished() && issued == old(issued) && answers == old(answers) && err == old(err)
      ensures disconnectStatus == Some(freeing || err == 0) && (old(freeing) ==> freeing) && (old(disconnecting) ==> disconnecting)
      ensures old(replies.Contents()) == [] ==> obuf == old(obuf)
      decreases 1, 3
    {
      hide ValidWith;
      Outstanding();
      while true
        invariant Valid() && !freed && !inCallback && issued == old(issued) && answers == old(answers) && err == old(err)
        invariant disconnecting || freeing || replies.Contents() == []
        invariant (old(freeing) ==> freeing) && (old(disconnecting) ==> disconnecting)
        invariant fresh(replies.repr - old(replies.repr))
        invariant old(replies.Contents()) == [] ==> given == |issued| && obuf == old(obuf)
        decreases |issued| - given
      {
        var more := RunNext();
        if !more {
          break;
        }
      }
      Close();
    }

    /** The end of __redisAsyncFree: the disconnect callback, and redisFree. */
    method Close()
      requires Valid() && given == |issued|
      modifies this`disconnectStatus, this`freed
      ensures Valid() && freed && disconnectStatus == Some(freeing || err == 0)
    {
      if freeing {
        disconnectStatus := Some(true);
      } else {
        disconnectStatus := Some(err == 0);
      }
      freed := true;
    }

    /** __redisSetError */
    method SetError(code: int)
      requires Valid() && code != 0
      modifies this`err
      ensures Valid() && err == code
    {
      err := code;
    }

    /** redisAsyncFree: inside a callback only the flag is set. */
    method AsyncFree()
      requires Valid() && !freed && (inCallback || given == |answers|)
      modifies this, replies, replies.repr
      ensures Valid() && issued == old(issued) && answers == old(answers) && err == old(err) && freeing
      ensures if old(inCallback)
        then !freed && inCallback && given == old(given) && disconnecting == old(disconnecting) && replies.repr == old(replies.repr)
          && log == old(log) && obuf == old(obuf)
        else Finished() && disconnectStatus == Some(true)
      decreases if inCallback then 0 else 1, 4
    {
      hide Delivered, Abandoned;
      freeing := true;
      if !inCallback {
        FreeNow();
      }
    }

    /** __redisAsyncDisconnect: without an error the queue must be empty, which is what the assertion checks. */
    method AsyncDisconnectNow()
      requires Valid() && !freed && !inCallback && given == |answers|
      requires err == 0 ==> replies.Contents() == []
      modifies this, replies, replies.repr
      ensures Valid() && Finished() && issued == old(issued) && answers == old(answers) && err == old(err)
      ensures disconnectStatus == Some(freeing || err == 0) && (old(freeing) ==> freeing) && (old(disconnecting) ==> disconnecting)
      ensures err == 0 ==> obuf == old(obuf)
      decreases 1, 4
    {
      hide Delivered, Abandoned;
      if err == 0 {
        var ret := replies.Shift();
        assert ret == None;
      } else {
        disconnecting := true;
      }
      FreeNow();
    }

    /** redisAsyncDisconnect: immediate only outside callbacks and with nothing outstanding. */
    method AsyncDisconnect()
      requires Valid() && !freed && (inCallback || (given == |answers| && err == 0))
      modifies this, replies, replies.repr
      ensures Valid() && issued == old(issued) && answers == old(answers) && err == old(err) && disconnecting
      ensures freed == (!old(inCallback) && old(replies.Contents()) == [])
      ensures freed ==> Finished() && disconnectStatus == Some(freeing || err == 0)
      ensures !freed ==> (inCallback == old(inCallback) && given == old(given) && freeing == old(freeing) && log == old(log)
        && obuf == old(obuf) && replies.repr == old(replies.repr))
      decreases if inCallback then 0 else 1, 5
    {
      hide Delivered, Abandoned;
      disconnecting := true;
      if !inCallback && replies.head == null {
        assert replies.Contents() == [];
        AsyncDisconnectNow();
      }
    }

    // ---------- the event loop ----------

    lemma Outstanding()
      requires Valid()
      ensures |replies.Contents()| == |issued| - given
    {
    }

    lemma HeadIsNull()
      requires Valid()
      ensures replies.head == null <==> replies.Contents() == []
    {
    }

    /** One turn of its loop with a reply; false when the context is gone. */
    method ProcessReply(reply: Reply) returns (goOn: bool)
      requires Valid() && Idle() && (replies.Contents() != [] || reply.isError)
      modifies this, replies, replies.repr
      ensures Valid() && old(issued) <= issued && goOn == !freed && (old(disconnecting) ==> issued == old(issued))
      ensures old(replies.Contents()) == [] ==> Finished() && answers == old(answers) && err != 0
      ensures old(replies.Contents()) != [] ==> answers == old(answers) + [reply] && (if freed then Finished() else Idle())
      ensures old(replies.Contents()) != [] && freed ==> freeing && err == 0
      ensures freed ==> disconnectStatus == Some(freeing || err == 0)
      ensures !freed ==> Follows(old(Agenda())) && (old(disconnecting) ==> |replies.Contents()| == |old(replies.Contents())| - 1)
      ensures IsQuiet(script) && old(replies.Contents()) != [] ==> !freed
      ensures goOn ==> fresh(replies.repr - old(replies.repr)) && |replies.Contents()| >= |old(replies.Contents())| - 1
    {
      hide ValidWith;
      var cb := TakeAnswered(reply);
      if cb == None {
        SetError(2);
        AsyncDisconnectNow();
        return false;
      }
      RunCallback(cb.value, Some(reply));
      if freeing {
        FreeNow();
        return false;
      }
      Outstanding();
      goOn := true;
    }

    /**
     * redisProcessCallbacks, when the reader can produce the replies of `batch` and then stops, or fails.
     * The server answers commands once each, in order; it may also refuse a new connection with an error.
     */
    method ProcessCallbacks(batch: seq<Reply>, readerFails: bool)
      requires Valid() && Idle()
      requires |batch| <= |replies.Contents()| || (replies.Contents() == [] && |batch| == 1 && batch[0].isError)
      modifies this, replies, replies.repr
      ensures Valid() && old(issued) <= issued && old(answers) <= answers <= old(answers) + batch
      ensures if freed then Finished() else Idle() && answers == old(answers) + batch && !readerFails
      ensures !freed ==> fresh(replies.repr - old(replies.repr))
      ensures !freed ==> !WoundUp() && Follows(old(Agenda()))
      ensures freed ==> disconnectStatus == Some(freeing || err == 0) && (freeing || err != 0 || (disconnecting && obuf == 0))
      ensures err != 0 ==> readerFails || |batch| > |old(replies.Contents())|
      ensures old(disconnecting) && old(obuf) == 0 && |batch| == |old(replies.Contents())| ==> freed
      ensures old(disconnecting) ==> issued == old(issued)
      ensures IsQuiet(script) && freed && err == 0 ==> old(disconnecting) && answers == old(answers) + batch
    {
      hide ValidWith;
      var i := 0;
      while true
        invariant 0 <= i <= |batch| && Valid() && Idle() && old(issued) <= issued && answers == old(answers) + batch[..i]
        invariant |batch| - i <= |replies.Contents()| || (i == 0 && replies.Contents() == [] && |batch| == 1 && batch[0].isError)
        invariant fresh(replies.repr - old(replies.repr)) && Follows(old(Agenda()))
        invariant old(disconnecting) ==> |replies.Contents()| == |old(replies.Contents())| - i
        invariant old(disconnecting) ==> issued == old(issued)
        invariant i == 0 ==> replies.Contents() == old(replies.Contents())
        decreases |batch| - i
      {
        if i == |batch| {
          HeadIsNull();
          if readerFails {
            SetError(1);
            AsyncDisconnectNow();
          } else if disconnecting && obuf == 0 && replies.head == null {
            AsyncDisconnectNow();
          }
          return;
        }
        var goOn := ProcessReply(batch[i]);
        if !goOn {
          return;
        }
        i := i + 1;
      }
    }

    /** redisAsyncHandleRead on a connected context. */
    method HandleRead(readFails: bool, batch: seq<Reply>, readerFails: bool)
      requires Valid() && Idle()
      requires |batch| <= |replies.Contents()| || (replies.Contents() == [] && |batch| == 1 && batch[0].isError)
      modifies this, replies, replies.repr
      ensures Valid() && old(issued) <= issued && old(answers) <= answers <= old(answers) + batch
      ensures if freed then Finished() else Idle() && answers == old(answers) + batch && !readerFails && !readFails
      ensures !freed ==> fresh(replies.repr - old(replies.repr))
      ensures !freed ==> !WoundUp() && Follows(old(Agenda()))
      ensures freed ==> disconnectStatus == Some(freeing || err == 0) && (freeing || err != 0 || (disconnecting && obuf == 0))
      ensures err != 0 ==> readFails || readerFails || |batch| > |old(replies.Contents())|
      ensures old(disconnecting) && old(obuf) == 0 && |batch| == |old(replies.Contents())| ==> freed
      ensures old(disconnecting) ==> issued == old(issued)
      ensures IsQuiet(script) && freed && err == 0 ==> old(disconnecting) && answers == old(answers) + batch
    {
      hide ValidWith;
      if readFails {
        SetError(1);
        AsyncDisconnectNow();
      } else {
        ProcessCallbacks(batch, readerFails);
      }
    }

    method Drained(written: nat)
      requires Valid() && written <= obuf
      modifies this`obuf
      ensures Valid() && obuf == old(obuf) - written
    {
      obuf := obuf - written;
    }

    /** redisAsyncHandleWrite on a connected context. */
    method HandleWrite(writeFails: bool, written: nat)
      requires Valid() && Idle() && written <= obuf
      modifies this, replies, replies.repr
      ensures Valid() && issued == old(issued) && answers == old(answers)
      ensures if writeFails then Finished() && disconnectStatus == Some(freeing) && err != 0
        else Idle() && obuf == old(obuf) - written && disconnecting == old(disconnecting) && replies.Contents() == old(replies.Contents())
      ensures !writeFails ==> replies.repr == old(replies.repr)
    {
      hide ValidWith;
      if writeFails {
        SetError(1);
        AsyncDisconnectNow();
      } else {
        Drained(written);
      }
    }
  }

  // ---------- the promises ----------

  /** Up to any moment, callbacks have run in issue order and at most once. */
  lemma AtMostOnce(c: AsyncContext)
    requires c.Valid()
    ensures Ids(c.log) == Expecting(c.issued, c.given)
    ensures forall i, j :: 0 <= i < j < |Ids(c.log)| ==> Ids(c.log)[i] < Ids(c.log)[j]
  {
    RunsInOrder(c.issued, c.answers, c.given);
    ExpectingOnce(c.issued, c.given);
  }

  /** Once the context is freed, exactly the accepted commands with a function have had it run, each once. */
  lemma ExactlyOnceWhenFreed(c: AsyncContext)
    requires c.Valid() && c.Finished()
    ensures forall k :: k in Ids(c.log) <==> 0 <= k < |c.issued| && c.issued[k].hasFn
    ensures forall i, j :: 0 <= i < j < |Ids(c.log)| ==> Ids(c.log)[i] < Ids(c.log)[j]
  {
    RunsInOrder(c.issued, c.answers, c.given);
    ExpectingOnce(c.issued, c.given);
  }

  /** Every reply received has gone to the callback of its own command. */
  lemma OwnReplies(c: AsyncContext)
    requires c.Valid()
    ensures forall k :: 0 <= k < |c.answers| && c.issued[k].hasFn ==> Run(k, Some(c.answers[k])) in c.log
  {
    forall k | 0 <= k < |c.answers| && c.issued[k].hasFn ensures Run(k, Some(c.answers[k])) in c.log {
      OwnReply(c.issued, c.answers, k);
      assert Run(k, Some(c.answers[k])) in Delivered(c.issued, c.answers);
    }
  }

  // ---------- whole lives ----------

  /** What happens to a context between callbacks: calls of its user, and readiness of its connection. */
  datatype Occasion =
    | Command(hasFn: bool)
    | Free
    | DisconnectNow
    | Readable(readFails: bool, incoming: seq<Reply>, readerFails: bool)
    | Writable(writeFails: bool, written: nat)

  /** The replies that can come of `incoming`: one for each outstanding command, or an error without any command. */
  function Arriving(incoming: seq<Reply>, outstanding: nat): (batch: seq<Reply>)
    ensures |batch| <= outstanding || (outstanding == 0 && |batch| == 1 && batch[0].isError)
  {
    if outstanding == 0 then (if incoming != [] && incoming[0].isError then incoming[..1] else [])
    else if |incoming| <= outstanding then incoming
    else incoming[..outstanding]
  }

  /** The connection or the server fails, or the server sends an error. */
  predicate Fails(o: Occasion) {
    match o
    case Readable(readFails, incoming, readerFails) => readFails || readerFails || exists i :: 0 <= i < |incoming| && incoming[i].isError
    case Writable(writeFails, _) => writeFails
    case _ => false
  }

  /** The user asks for the end of the context. */
  predicate Ends(o: Occasion) { o.Free? || o.DisconnectNow? }

  /**
   * Any life of a context, whatever its callbacks do, until it is freed or nothing more happens: callbacks run in
   * issue order and at most once, with the reply to their own command, and once the context is freed every
   * command with a callback has had it run. A context that was asked to disconnect is freed at a read that leaves
   * nothing to write and nothing unanswered; without failures the disconnect callback gets the good status; and
   * without failures a context is only freed when it was asked for.
   */
  method Live(script: nat -> seq<Action>, occasions: seq<Occasion>) returns (c: AsyncContext, n: nat)
    ensures fresh(c) && c.Valid() && n <= |occasions| && (if c.freed then c.Finished() else n == |occasions| && c.Idle())
    ensures Ids(c.log) == Expecting(c.issued, c.given)
    ensures forall i, j :: 0 <= i < j < |Ids(c.log)| ==> Ids(c.log)[i] < Ids(c.log)[j]
    ensures forall k :: 0 <= k < |c.answers| && c.issued[k].hasFn ==> Run(k, Some(c.answers[k])) in c.log
    ensures c.freed ==> forall k :: k in Ids(c.log) <==> 0 <= k < |c.issued| && c.issued[k].hasFn
    ensures !c.freed && n > 0 && occasions[n - 1].Readable? ==> !c.WoundUp()
    ensures !c.freed && (exists i :: 0 <= i < n && occasions[i].DisconnectNow?) ==> c.disconnecting
    ensures c.freed ==> c.disconnectStatus == Some(c.freeing || c.err == 0)
    ensures (forall i :: 0 <= i < n ==> !Fails(occasions[i])) ==> c.err == 0
    ensures c.script == script
    ensures IsQuiet(script) && (forall i :: 0 <= i < n ==> !Fails(occasions[i]) && !Ends(occasions[i])) ==> !c.freed && !c.disconnecting
  {
    hide AsyncContext.ValidWith, Ids, Expecting, AsyncContext.WoundUp, IsQuiet, Fails, Ends;
    c := new AsyncContext(script);
    n := 0;
    var answered := 0;
    while n < |occasions| && !c.freed
      invariant fresh(c) && fresh(c.replies) && c.Valid() && n <= |occasions|
      invariant if c.freed then c.Finished() else c.Idle() && answered == |c.answers| && fresh(c.replies.repr)
      invariant c.script == script
      invariant !c.freed && n > 0 && occasions[n - 1].Readable? ==> !c.WoundUp()
      invariant !c.freed && (exists i :: 0 <= i < n && occasions[i].DisconnectNow?) ==> c.disconnecting
      invariant c.freed ==> c.disconnectStatus == Some(c.freeing || c.err == 0)
      invariant (forall i :: 0 <= i < n ==> !Fails(occasions[i])) ==> c.err == 0
      invariant IsQuiet(script) && (forall i :: 0 <= i < n ==> !Fails(occasions[i]) && !Ends(occasions[i])) ==> !c.freed && !c.disconnecting
      decreases |occasions| - n
    {
      answered := Happen(c, occasions[n], answered);
      n := n + 1;
    }
    AtMostOnce(c);
    OwnReplies(c);
    if c.freed {
      ExactlyOnceWhenFreed(c);
    }
  }

  /** One occasion; counts the replies received. */
  method Happen(c: AsyncContext, o: Occasion, answered0: nat) returns (answered: nat)
    requires c.Valid() && c.Idle() && answered0 == |c.answers|
    modifies c, c.replies, c.replies.repr
    ensures c.Valid() && (if c.freed then c.Finished() else c.Idle() && answered == |c.answers|)
    ensures !c.freed ==> fresh(c.replies.repr - old(c.replies.repr))
    ensures c.err != 0 ==> Fails(o)
    ensures c.freed ==> c.disconnectStatus == Some(c.freeing || c.err == 0)
    ensures !c.freed && (old(c.disconnecting) || o.DisconnectNow?) ==> c.disconnecting
    ensures !c.freed && o.Readable? ==> !c.WoundUp()
    ensures IsQuiet(c.script) && !Ends(o) && !old(c.disconnecting) ==> !c.disconnecting || c.err != 0
    ensures IsQuiet(c.script) && !Ends(o) && !old(c.disconnecting) ==> !c.freed || c.err != 0
  {
    hide AsyncContext.ValidWith;
    answered := answered0;
    match o
    case Command(hasFn) =>
      var _ := c.AsyncCommand(hasFn);
    case Free =>
      c.AsyncFree();
    case DisconnectNow =>
      c.AsyncDisconnect();
    case Readable(readFails, incoming, readerFails) =>
      OutstandingCount(c);
      var batch := Arriving(incoming, c.commands - answered);
      c.HandleRead(readFails, batch, readerFails);
      answered := answered + |batch|;
    case Writable(writeFails, written) =>
      c.HandleWrite(writeFails, if written <= c.obuf then written else c.obuf);
  }

  /**
   * Disconnecting: once the output is written and every command is answered the context is freed, with the good
   * status; and if no callback asks for more, no reply is left out.
   */
  method WindDown(c: AsyncContext, answered: nat, incoming: seq<Reply>)
    requires c.Valid() && c.Idle() && answered == |c.answers|
    requires |incoming| == |c.issued| - |c.answers|
    modifies c, c.replies, c.replies.repr
    ensures c.Valid() && c.Finished() && c.issued == old(c.issued) && c.disconnectStatus == Some(true)
    ensures IsQuiet(c.script) ==> c.answers == old(c.answers) + incoming
  {
    hide AsyncContext.ValidWith;
    OutstandingCount(c);
    c.HandleWrite(false, c.obuf);
    c.AsyncDisconnect();
    if !c.freed {
      OutstandingCount(c);
      c.HandleRead(false, incoming, false);
    }
  }

  lemma OutstandingCount(c: AsyncContext)
    requires c.Valid() && c.Idle()
    ensures |c.replies.Contents()| == c.commands - |c.answers| == |c.issued| - |c.answers| >= 0
  {
  }

  lemma OneMoreAbandoned(issued: seq<Callback>, answers: seq<Reply>, given: nat)
    requires |answers| < given <= |issued|
    ensures var cb := issued[given - 1];
      Delivered(issued, answers) + Abandoned(issued, |answers|, given)
      == Delivered(issued, answers) + Abandoned(issued, |answers|, given - 1) + (if cb.hasFn then [Run(cb.id, None)] else [])
  {
    hide Delivered;
  }

  lemma OneMoreDelivered(issued: seq<Callback>, answers: seq<Reply>, reply: Reply)
    requires |answers| < |issued|
    ensures var cb := issued[|answers|];
      var n := |answers|;
      Delivered(issued, answers + [reply]) + Abandoned(issued, n + 1, n + 1)
      == Delivered(issued, answers) + Abandoned(issued, n, n) + (if cb.hasFn then [Run(cb.id, Some(reply))] else [])
  {
    assert (answers + [reply])[..|answers|] == answers;
  }
}
