/** The bounded connection pools of mysql/db_pool.cc and redis/cache_pool.cpp: one protocol, with a minimum of one
    connection in the first and of two in the second, a parameter here. */
module ConnPool {
  import opened Common

  /** A connection, by its number of creation. */
  type Conn = nat

  /** What one locked stretch of GetDBConn comes to: a connection, a null pointer, or a wait that drops the lock. */
  datatype Grant = Got(conn: Conn) | Nothing | Waits

  class Pool {
    var freeList: seq<Conn>
    var curConnCnt: nat
    const maxConnCnt: int
    var abortRequest: bool
    const minConnCnt: nat
    /** Connections made so far, and those in the variables of callers. */
    var created: nat
    var held: set<Conn>

    /** No connection is free twice, or free and held. */
    ghost predicate Apart()
      reads this
    {
      && (forall i, j :: 0 <= i < j < |freeList| ==> freeList[i] != freeList[j])
      && (forall i :: 0 <= i < |freeList| ==> freeList[i] !in held && freeList[i] < created)
      && (forall c :: c in held ==> c < created)
    }

    ghost predicate Valid()
      reads this
    {
      Apart() && (!abortRequest ==> |freeList| + |held| == curConnCnt && Bounded())
    }

    /** The maximum holds, unless the pool started above it; then no connection is added. */
    predicate Bounded()
      reads this
    {
      curConnCnt <= maxConnCnt || curConnCnt == minConnCnt
    }

    /** The constructor and Init; the connections made before a failure stay behind, and the pool is not used. */
    constructor (minConnCnt: nat, maxConnCnt: int, initFailsAt: Option<nat>)
      ensures Apart() && held == {} && !abortRequest && this.maxConnCnt == maxConnCnt && this.minConnCnt == minConnCnt
      ensures (initFailsAt == None || initFailsAt.value >= minConnCnt) ==> Valid() && curConnCnt == minConnCnt == |freeList|
      ensures initFailsAt != None && initFailsAt.value < minConnCnt ==> |freeList| == initFailsAt.value
    {
      this.minConnCnt, this.maxConnCnt := minConnCnt, maxConnCnt;
      curConnCnt := minConnCnt;
      abortRequest := false;
      freeList, created, held := [], 0, {};
      new;
      for i := 0 to minConnCnt
        invariant created == i == |freeList| && curConnCnt == minConnCnt && !abortRequest && held == {}
        invariant forall k :: 0 <= k < i ==> freeList[k] == k
        invariant initFailsAt == None || i <= initFailsAt.value
      {
        if initFailsAt == Some(i) {
          return;
        }
        freeList := freeList + [created];
        created := created + 1;
      }
    }

    /** The last lines of GetDBConn: the caller gets the connection that has been free longest. */
    method TakeFront() returns (conn: Conn)
      requires Apart() && freeList != []
      modifies this`freeList, this`held
      ensures Apart() && conn == old(freeList)[0] && conn !in old(held)
      ensures freeList == old(freeList)[1..] && held == old(held) + {conn} && |held| == |old(held)| + 1
    {
      conn := freeList[0];
      freeList := freeList[1..];
      held := held + {conn};
    }

    /** GetDBConn up to its wait, or to its end when it does not wait. */
    method Get(initFails: bool) returns (grant: Grant)
      requires Valid()
      modifies this
      ensures Valid() && abortRequest == old(abortRequest)
      ensures grant.Waits? <==> !abortRequest && old(freeList) == [] && old(curConnCnt) >= maxConnCnt
      ensures grant.Nothing? <==> abortRequest || (old(freeList) == [] && old(curConnCnt) < maxConnCnt && initFails)
      ensures grant.Got? ==> grant.conn !in old(held) && held == old(held) + {grant.conn}
      ensures grant.Got? ==> grant.conn == if old(freeList) != [] then old(freeList)[0] else old(created)
      ensures grant.Got? && old(freeList) != [] ==>
        freeList == old(freeList)[1..] && curConnCnt == old(curConnCnt) && created == old(created)
      ensures grant.Got? && old(freeList) == [] ==>
        freeList == [] && curConnCnt == old(curConnCnt) + 1 && created == old(created) + 1
      ensures !grant.Got? ==> created == old(created)
      ensures !grant.Got? ==> held == old(held) && freeList == old(freeList) && curConnCnt == old(curConnCnt)
    {
      if abortRequest {
        return Nothing;
      }
      if freeList == [] {
        if curConnCnt >= maxConnCnt {
          return Waits;
        }
        if initFails {
          return Nothing;
        }
        freeList := freeList + [created];
        created := created + 1;
        curConnCnt := curConnCnt + 1;
      }
      var conn := TakeFront();
      grant := Got(conn);
    }

    /** A waiting caller has the lock again: the condition holds, or its time is up. */
    method Wake(timed: bool) returns (grant: Grant)
      requires Valid() && (timed || freeList != [] || abortRequest)
      modifies this`freeList, this`held
      ensures Valid() && !grant.Waits?
      ensures grant.Got? <==> !abortRequest && old(freeList) != []
      ensures grant.Got? ==> grant.conn == old(freeList)[0] && grant.conn !in old(held) && held == old(held) + {grant.conn}
      ensures grant.Got? ==> freeList == old(freeList)[1..]
      ensures !grant.Got? ==> held == old(held) && freeList == old(freeList)
    {
      if timed && freeList == [] {
        return Nothing;
      }
      if abortRequest {
        return Nothing;
      }
      var conn := TakeFront();
      grant := Got(conn);
    }

    /** RelDBConn: a connection that is free already is refused. */
    method Release(conn: Conn)
      requires Valid() && (conn in held || conn in freeList)
      modifies this`freeList, this`held
      ensures Valid()
      ensures conn in old(held) ==> freeList == old(freeList) + [conn] && held == old(held) - {conn}
      ensures conn in old(freeList) ==> freeList == old(freeList) && held == old(held)
    {
      var it := 0;
      while it < |freeList| && freeList[it] != conn
        invariant it <= |freeList| && forall k :: 0 <= k < it ==> freeList[k] != conn
      {
        it := it + 1;
      }
      if it == |freeList| {
        freeList := freeList + [conn];
        held := held - {conn};
      }
    }

    /** The destructor's locked region: every later Get and Wake returns nothing. */
    method Abort()
      requires Valid()
      modifies this`abortRequest, this`freeList
      ensures Valid() && abortRequest && freeList == []
    {
      abortRequest := true;
      freeList := [];
    }
  }

  // ---------- every interleaving ----------

  datatype Event = GetEvent(initFails: bool) | WakeEvent(timed: bool) | ReleaseEvent(conn: Conn) | AbortEvent

  /** A caller may only return what it got, and an untimed wait only ends when its condition does. */
  predicate Possible(p: Pool, e: Event)
    reads p
  {
    match e
    case WakeEvent(timed) => timed || p.freeList != [] || p.abortRequest
    case ReleaseEvent(conn) => conn in p.held || conn in p.freeList
    case _ => true
  }

  method Step(p: Pool, e: Event)
    requires p.Valid() && Possible(p, e)
    modifies p
    ensures p.Valid()
  {
    match e
    case GetEvent(initFails) => var _ := p.Get(initFails);
    case WakeEvent(timed) => var _ := p.Wake(timed);
    case ReleaseEvent(conn) => p.Release(conn);
    case AbortEvent => p.Abort();
  }

  /** Any interleaving of any number of callers, up to the first event that cannot happen. */
  method RunEvents(minConnCnt: nat, maxConnCnt: int, events: seq<Event>) returns (p: Pool, done: nat)
    ensures fresh(p) && p.Apart() && done <= |events| && (done < |events| ==> !Possible(p, events[done]))
    ensures !p.abortRequest ==> |p.freeList| + |p.held| == p.curConnCnt
    ensures !p.abortRequest && minConnCnt <= maxConnCnt ==> p.curConnCnt <= maxConnCnt
  {
    p := new Pool(minConnCnt, maxConnCnt, None);
    done := 0;
    while done < |events| && Possible(p, events[done])
      invariant fresh(p) && p.Valid() && done <= |events| && p.maxConnCnt == maxConnCnt && p.minConnCnt == minConnCnt
    {
      Step(p, events[done]);
      done := done + 1;
    }
  }
}
