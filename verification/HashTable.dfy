/** The chained hash table of redis/dict.c, with its entries linked in place. */
module HashTable {
  import opened Common

  // ---------- sizes ----------

  const INITIAL_SIZE := 4
  const LONG_MAX := LLONG_MAX

  /** Sizes beyond this one do not survive the `(signed)size` of dictNext. */
  const MAX_SIZE := 0x4000_0000

  predicate IsPowerOfTwo(n: nat) { n == 1 || (n > 1 && n % 2 == 0 && IsPowerOfTwo(n / 2)) }

  /** _dictNextPower: the least power of two from 4 on that is not below `size`. */
  method NextPower(size: nat) returns (i: nat)
    ensures size >= LONG_MAX ==> i == LONG_MAX
    ensures size < LONG_MAX ==> IsPowerOfTwo(i) && i >= INITIAL_SIZE && i >= size && (i > INITIAL_SIZE ==> i / 2 < size)
  {
    if size >= LONG_MAX {
      return LONG_MAX;
    }
    hide IsPowerOfTwo;
    i := INITIAL_SIZE;
    FourIsPower();
    while i < size
      invariant IsPowerOfTwo(i) && i >= INITIAL_SIZE && (i > INITIAL_SIZE ==> i / 2 < size)
      decreases size - i
    {
      Doubled(i);
      i := i * 2;
    }
  }

  lemma FourIsPower()
    ensures IsPowerOfTwo(INITIAL_SIZE)
  {
    assert IsPowerOfTwo(2);
  }

  lemma Doubled(n: nat)
    requires IsPowerOfTwo(n)
    ensures IsPowerOfTwo(n * 2) && n * 2 / 2 == n
  {
  }

  /** Between two different powers of two lies a factor of at least two. */
  lemma {:induction false} PowerGap(a: nat, b: nat)
    requires IsPowerOfTwo(a) && IsPowerOfTwo(b) && a < b
    ensures 2 * a <= b
    decreases a
  {
    if a > 1 {
      PowerGap(a / 2, b / 2);
    }
  }

  lemma MaxIsPower()
    ensures IsPowerOfTwo(MAX_SIZE)
  {
    EightTimes(1);
    EightTimes(0x8);
    EightTimes(0x40);
    EightTimes(0x200);
    EightTimes(0x1000);
    EightTimes(0x8000);
    EightTimes(0x40000);
    EightTimes(0x200000);
    EightTimes(0x1000000);
    EightTimes(0x8000000);
  }

  lemma EightTimes(n: nat)
    requires IsPowerOfTwo(n)
    ensures IsPowerOfTwo(8 * n)
  {
    hide IsPowerOfTwo;
    Doubled(n);
    Doubled(2 * n);
    Doubled(4 * n);
  }

  /** The least power of two that is not below a power of two is that power. */
  lemma LeastPower(n: nat, size: nat)
    requires IsPowerOfTwo(n) && n >= INITIAL_SIZE && GoodSize(size) && n <= size && (size > INITIAL_SIZE ==> size / 2 < n)
    ensures size == n
  {
    if n < size {
      PowerGap(n, size);
    }
  }

  /** Doubling a table that is not at the limit stays within it. */
  lemma DoublingFits(size: nat)
    requires GoodSize(size) && size < MAX_SIZE
    ensures 2 * size <= MAX_SIZE
  {
    if size > 0 {
      MaxIsPower();
      PowerGap(size, MAX_SIZE);
    }
  }

  /** Bitwise and of two numbers. */
  function And(a: nat, b: nat): (r: nat)
    ensures r <= b
  {
    if a == 0 || b == 0 then 0 else (if a % 2 == 1 && b % 2 == 1 then 1 else 0) + 2 * And(a / 2, b / 2)
  }

  /** Masking with size - 1 is the remainder, because sizes are powers of two. */
  lemma {:induction false} MaskIsRemainder(h: nat, size: nat)
    requires IsPowerOfTwo(size)
    ensures And(h, size - 1) == h % size
    decreases size
  {
    hide And, IsPowerOfTwo;
    PowerIsPositive(size);
    if size == 1 {
      NothingMasked(h);
      assert h % 1 == 0;
    } else if h == 0 {
      NothingMasked(size - 1);
      Remainder(0, size, 0, 0);
    } else {
      var half := size / 2;
      HalfIsPower(size);
      MaskIsRemainder(h / 2, half);
      OddMask(h, half);
      Halve(h, half);
    }
  }

  lemma NothingMasked(n: nat)
    ensures And(n, 0) == 0 == And(0, n)
  {
  }

  lemma PowerIsPositive(size: nat)
    requires IsPowerOfTwo(size)
    ensures size > 0
  {
  }

  lemma HalfIsPower(size: nat)
    requires IsPowerOfTwo(size) && size > 1
    ensures IsPowerOfTwo(size / 2) && size == 2 * (size / 2) && size / 2 > 0
  {
  }

  lemma OddMask(h: nat, half: nat)
    requires half > 0 && h > 0
    ensures And(h, 2 * half - 1) == h % 2 + 2 * And(h / 2, half - 1)
  {
    assert (2 * half - 1) % 2 == 1 && (2 * half - 1) / 2 == half - 1;
  }

  lemma Halve(h: nat, half: nat)
    requires half > 0
    ensures h % (2 * half) == h % 2 + 2 * (h / 2 % half)
  {
    var q, r := h / 2 / half, h / 2 % half;
    assert h / 2 == half * q + r;
    assert h == 2 * half * q + (2 * r + h % 2);
    Remainder(h, 2 * half, q, 2 * r + h % 2);
  }

  lemma Remainder(a: nat, b: nat, q: nat, r: nat)
    requires b > 0 && a == b * q + r && r < b
    ensures a % b == r
  {
    var d := a / b - q;
    assert b * d == r - a % b;
    if d != 0 {
      AtLeastOnce(b, d);
    }
  }

  lemma AtLeastOnce(b: nat, d: int)
    requires b > 0 && d != 0
    ensures b * d >= b || b * d <= 0 - b
  {
    if d > 0 {
      Times(b, d - 1);
    } else {
      Times(b, -d - 1);
    }
  }

  lemma {:induction false} Times(b: int, n: int)
    requires b > 0 && n >= 0
    ensures b * (n + 1) >= b && b * (-n - 1) <= -b
    decreases n
  {
    if n > 0 {
      Times(b, n - 1);
    }
  }

  // ---------- chains ----------

  class Entry<K, V> {
    const key: K
    var val: V
    var next: Entry?<K, V>

    constructor (key: K, val: V, next: Entry?<K, V>)
      ensures this.key == key && this.val == val && this.next == next
    {
      this.key, this.val, this.next := key, val, next;
    }
  }

  /** The slot of a key, as dictHashKey(ht, key) & sizemask. */
  function Bucket<K>(hash: K -> nat, key: K, size: nat): (b: nat)
    requires size > 0
    ensures b < size
    ensures IsPowerOfTwo(size) ==> b == hash(key) % size
  {
    assert IsPowerOfTwo(size) ==> And(hash(key), size - 1) == hash(key) % size by {
      if IsPowerOfTwo(size) {
        MaskIsRemainder(hash(key), size);
      }
    }
    And(hash(key), size - 1)
  }

  /** The entry at a position of a chain, or the null pointer behind it. */
  ghost function At<K, V>(c: seq<Entry<K, V>>, j: nat): Entry?<K, V> {
    if j < |c| then c[j] else null
  }

  /** The chain c hangs off `head`. */
  ghost predicate Linked<K, V>(head: Entry?<K, V>, c: seq<Entry<K, V>>)
    reads c`next
  {
    head == At(c, 0) && forall j :: 0 <= j < |c| ==> c[j].next == At(c, j + 1)
  }

  ghost predicate NoDup<K, V>(c: seq<Entry<K, V>>) {
    forall j, k :: 0 <= j < k < |c| ==> c[j].key != c[k].key
  }

  /** Every entry sits in the chain of its slot, and no chain holds a key twice. */
  ghost predicate Shape<K, V>(hash: K -> nat, chains: seq<seq<Entry<K, V>>>) {
    && (forall i :: 0 <= i < |chains| ==> NoDup(chains[i]))
    && forall i, j :: 0 <= i < |chains| && 0 <= j < |chains[i]| ==> Bucket(hash, chains[i][j].key, |chains|) == i
  }

  ghost predicate Holds<K, V>(c: seq<Entry<K, V>>, key: K) {
    exists j :: 0 <= j < |c| && c[j].key == key
  }

  /** The entries carry exactly the bindings of the map. */
  ghost predicate Means<K(!new), V>(hash: K -> nat, chains: seq<seq<Entry<K, V>>>, contents: map<K, V>)
    reads Objects(chains)`val
  {
    && (forall e :: e in Objects(chains) ==> e.key in contents && contents[e.key] == e.val)
    && forall k :: k in contents ==> |chains| > 0 && Holds(chains[Bucket(hash, k, |chains|)], k)
  }

  ghost function Objects<K, V>(chains: seq<seq<Entry<K, V>>>): set<Entry<K, V>> {
    set i, j | 0 <= i < |chains| && 0 <= j < |chains[i]| :: chains[i][j]
  }

  predicate GoodSize(size: nat) { size == 0 || (IsPowerOfTwo(size) && INITIAL_SIZE <= size <= MAX_SIZE) }

  lemma LinkFront<K, V>(head: Entry?<K, V>, c: seq<Entry<K, V>>, e: Entry<K, V>)
    requires Linked(head, c) && e.next == head
    ensures Linked(e, [e] + c)
  {
    var d := [e] + c;
    forall j | 0 <= j < |d| ensures d[j].next == At(d, j + 1) {
      if j > 0 {
        assert d[j] == c[j - 1] && At(d, j + 1) == At(c, j);
      }
    }
  }

  /** A chain whose j-th entry is bypassed. */
  lemma SkipOver<K, V>(head: Entry?<K, V>, c: seq<Entry<K, V>>, j: nat)
    requires j < |c| && head == (if j == 0 then At(c, 1) else c[0])
    requires forall k :: 0 <= k < |c| ==> c[k].next == (if k + 1 == j then At(c, k + 2) else At(c, k + 1))
    ensures Linked(head, c[..j] + c[j + 1..])
  {
    var rest := c[..j] + c[j + 1..];
    forall k | 0 <= k < |rest| ensures rest[k].next == At(rest, k + 1) {
      var i := if k < j then k else k + 1;
      assert rest[k] == c[i];
      assert At(rest, k + 1) == if k + 1 < j then c[k + 1] else At(c, k + 2);
    }
  }

  /** Walks a chain up to the key: the entry and the one before it, at position j. */
  method Search<K(==), V>(head: Entry?<K, V>, key: K, ghost c: seq<Entry<K, V>>)
    returns (he: Entry?<K, V>, prev: Entry?<K, V>, ghost j: nat)
    requires Linked(head, c)
    ensures j <= |c| && he == At(c, j) && prev == (if j > 0 then c[j - 1] else null)
    ensures forall k :: 0 <= k < j ==> c[k].key != key
    ensures he != null ==> he.key == key
    ensures he == null <==> !Holds(c, key)
  {
    he, prev, j := head, null, 0;
    while he != null
      invariant j <= |c| && he == At(c, j) && prev == (if j > 0 then c[j - 1] else null)
      invariant forall k :: 0 <= k < j ==> c[k].key != key
      decreases |c| - j
    {
      if he.key == key {
        return;
      }
      assert he == c[j];
      prev := he;
      he := he.next;
      j := j + 1;
    }
  }

  /** he->next = n.table[h]; n.table[h] = he */
  method MoveEntry<K, V>(hash: K -> nat, n: array<Entry?<K, V>>, he: Entry<K, V>, ghost chains: seq<seq<Entry<K, V>>>)
    returns (ghost after: seq<seq<Entry<K, V>>>)
    requires |chains| == n.Length > 0 && Shape(hash, chains) && forall b :: 0 <= b < n.Length ==> Linked(n[b], chains[b])
    requires forall e :: e in Objects(chains) ==> e.key != he.key
    modifies n, he`next
    ensures |after| == n.Length && Shape(hash, after) && forall b :: 0 <= b < n.Length ==> Linked(n[b], after[b])
    ensures Objects(after) == Objects(chains) + {he} && |Concat(after)| == |Concat(chains)| + 1
  {
    hide Bucket, NoDup, Concat, Shape, Objects, Holds;
    var h := Bucket(hash, he.key, n.Length);
    after := chains[h := [he] + chains[h]];
    InsertObjects(chains, h, he);
    InsertLength(chains, h, he);
    NotAmong(chains, he);
    InsertShape(hash, chains, h, he);
    he.next := n[h];
    LinkFront(n[h], chains[h], he);
    n[h] := he;
  }

  lemma NotAmong<K, V>(chains: seq<seq<Entry<K, V>>>, he: Entry<K, V>)
    requires forall e :: e in Objects(chains) ==> e.key != he.key
    ensures forall b :: 0 <= b < |chains| ==> he !in chains[b] && !Holds(chains[b], he.key)
  {
    assert forall b, j :: 0 <= b < |chains| && 0 <= j < |chains[b]| ==> chains[b][j] in Objects(chains);
  }

  /** Moves a whole chain, reading each next pointer before overwriting it. */
  method Relink<K, V>(hash: K -> nat, n: array<Entry?<K, V>>, head: Entry?<K, V>, ghost c: seq<Entry<K, V>>,
                      ghost chains: seq<seq<Entry<K, V>>>)
    returns (ghost after: seq<seq<Entry<K, V>>>, count: nat)
    requires |chains| == n.Length > 0 && Shape(hash, chains) && forall b :: 0 <= b < n.Length ==> Linked(n[b], chains[b])
    requires Linked(head, c) && NoDup(c)
    requires forall e, j :: e in Objects(chains) && 0 <= j < |c| ==> e.key != c[j].key
    modifies n, c`next
    ensures |after| == n.Length && Shape(hash, after) && forall b :: 0 <= b < n.Length ==> Linked(n[b], after[b])
    ensures Objects(after) == Objects(chains) + (set e | e in c) && |Concat(after)| == |Concat(chains)| + |c|
    ensures count == |c|
  {
    hide Shape, Concat, Objects, Linked, NoDup;
    after, count := chains, 0;
    var he := head;
    assert c[0..] == c && c[..0] == [];
    while he != null
      invariant count <= |c| && Linked(he, c[count..])
      invariant |after| == n.Length && Shape(hash, after) && forall b :: 0 <= b < n.Length ==> Linked(n[b], after[b])
      invariant Objects(after) == Objects(chains) + (set e | e in c[..count]) && |Concat(after)| == |Concat(chains)| + count
      decreases |c| - count
    {
      LinkedTail(he, c, count);
      var nextHe := he.next;
      assert c[..count + 1] == c[..count] + [he];
      after := MoveEntry(hash, n, he, after);
      count := count + 1;
      he := nextHe;
    }
    ChainEnd(c[count..]);
    assert c[..count] == c;
  }

  /** The first entry of what is left of a chain does not occur behind or before itself. */
  lemma LinkedTail<K, V>(he: Entry<K, V>, c: seq<Entry<K, V>>, k: nat)
    requires k <= |c| && Linked(he, c[k..]) && NoDup(c)
    ensures k < |c| && c[k] == he && Linked(he.next, c[k + 1..]) && he !in c[k + 1..]
    ensures forall e :: e in c[..k] ==> e.key != he.key
  {
    assert c[k..][0] == he;
    assert c[k..][1..] == c[k + 1..];
  }

  lemma ChainEnd<K, V>(c: seq<Entry<K, V>>)
    requires Linked(null, c)
    ensures c == []
  {
  }

  class Dict<K(==,!new), V> {
    const hash: K -> nat
    var table: array<Entry?<K, V>>
    var size: nat
    var used: nat
    ghost var chains: seq<seq<Entry<K, V>>>
    ghost var contents: map<K, V>
    ghost var repr: set<object>

    ghost predicate Valid()
      reads this, repr
    {
      && this !in repr && table in repr && Objects(chains) <= repr
      && table.Length == size == |chains| && GoodSize(size)
      && Shape(hash, chains)
      && (forall i :: 0 <= i < size ==> Linked(table[i], chains[i]))
      && Means(hash, chains, contents)
      && used == |Concat(chains)| == |contents|
      && used <= size
    }

    constructor (hash: K -> nat)
      ensures Valid() && fresh(repr) && contents == map[] && size == 0 && this.hash == hash
    {
      this.hash := hash;
      table := new Entry?<K, V>[0](_ => null);
      size, used := 0, 0;
      chains, contents := [], map[];
      new;
      repr := {table};
    }

    method Find(key: K) returns (he: Entry?<K, V>)
      requires Valid()
      ensures he == null <==> key !in contents
      ensures he != null ==> he in Objects(chains) && he.key == key && he.val == contents[key]
    {
      hide Bucket, NoDup;
      if size == 0 {
        return null;
      }
      var h := Bucket(hash, key, size);
      ghost var j, prev;
      he, prev, j := Search(table[h], key, chains[h]);
      InChain(hash, chains, contents, key);
    }

    /** dictExpand: moves every entry to a table of the next power of two. */
    method Expand(requested: nat) returns (ok: bool)
      requires Valid() && requested <= MAX_SIZE
      modifies this, repr
      ensures Valid() && contents == old(contents) && used == old(used)
      ensures ok == (used <= requested)
      ensures ok ==> requested <= size && (size > INITIAL_SIZE ==> size / 2 < requested)
      ensures !ok ==> size == old(size)
      ensures fresh(repr - old(repr))
    {
      hide Bucket, IsPowerOfTwo, Shape, Means, Holds, NoDup, Concat, Linked, Objects;
      var realsize := NextPower(requested);
      if used > requested {
        return false;
      }
      RealsizeFits(requested, realsize);
      var n := new Entry?<K, V>[realsize](_ => null);
      var nUsed := used;
      ghost var newChains := MoveAll(n);
      RehashMeans(hash, chains, newChains, contents);
      table, size, used := n, realsize, nUsed;
      chains := newChains;
      repr := repr + {n};
      ok := true;
    }

    /** The loop over the slots. It empties the old table as it goes, and stops early once nothing is left. */
    method MoveAll(n: array<Entry?<K, V>>) returns (ghost moved: seq<seq<Entry<K, V>>>)
      requires Valid() && n !in repr && GoodSize(n.Length) && n.Length > 0 && forall b :: 0 <= b < n.Length ==> n[b] == null
      modifies n, this`used, Objects(chains)`next
      ensures used == 0
      ensures |moved| == n.Length && Shape(hash, moved) && forall b :: 0 <= b < n.Length ==> Linked(n[b], moved[b])
      ensures Objects(moved) == Objects(chains) && |Concat(moved)| == |Concat(chains)|
    {
      hide Bucket, IsPowerOfTwo, Shape, Means, Holds, NoDup, Concat, Linked, Objects;
      moved := seq(n.Length, _ => []);
      EmptyTable(hash, n, moved);
      assert chains[..0] == [];
      NothingMoved(chains);
      var i := 0;
      while i < size && used > 0
        invariant 0 <= i <= size && |moved| == n.Length
        invariant Shape(hash, moved) && forall b :: 0 <= b < n.Length ==> Linked(n[b], moved[b])
        invariant Objects(moved) == Objects(chains[..i]) && |Concat(moved)| == |Concat(chains[..i])|
        invariant used + |Concat(chains[..i])| == |Concat(chains)|
        invariant forall b :: i <= b < size ==> Linked(table[b], chains[b])
      {
        KeysApart(hash, chains, i);
        ChainsApart(hash, chains, i);
        OneMoreChain(chains, i);
        var count;
        moved, count := Relink(hash, n, table[i], chains[i], moved);
        used := used - count;
        i := i + 1;
      }
      assert chains[..size] == chains;
      if used == 0 {
        RestIsEmpty(chains, i);
      }
    }

    /** _dictExpandIfNeeded and _dictKeyIndex: the slot for a new key, or -1 for a key in the table. */
    method KeyIndex(key: K) returns (index: int)
      requires Valid() && used < MAX_SIZE
      modifies this, repr
      ensures Valid() && contents == old(contents) && used == old(used) < size
      ensures size == (if old(size) == 0 then 4 else if old(used) == old(size) then 2 * old(size) else old(size))
      ensures index == -1 <==> key in contents
      ensures key !in contents ==> 0 <= index <= INT_MAX && index == Bucket(hash, key, size)
      ensures fresh(repr - old(repr))
    {
      hide Bucket, IsPowerOfTwo, Shape, Means, Holds, NoDup, Concat, Linked, Objects;
      if size == 0 {
        var _ := Expand(INITIAL_SIZE);
        FourIsPower();
        LeastPower(INITIAL_SIZE, size);
      } else if used == size {
        DoublingFits(size);
        Doubled(size);
        ghost var twice := size * 2;
        var _ := Expand(size * 2);
        LeastPower(twice, size);
      }
      var h := Bucket(hash, key, size);
      InChain(hash, chains, contents, key);
      var he, prev;
      ghost var j;
      he, prev, j := Search(table[h], key, chains[h]);
      index := if he != null then -1 else h;
    }

    method Add(key: K, val: V) returns (ok: bool)
      requires Valid() && used < MAX_SIZE
      modifies this, repr
      ensures Valid() && ok == (key !in old(contents))
      ensures contents == if ok then old(contents)[key := val] else old(contents)
      ensures used <= size && size == (if old(size) == 0 then 4 else if old(used) == old(size) then 2 * old(size) else old(size))
      ensures fresh(repr - old(repr))
    {
      var index := KeyIndex(key);
      if index == -1 {
        return false;
      }
      Insert(index, key, val);
      ok := true;
    }

    /** True when the key was new. */
    method Replace(key: K, val: V) returns (added: bool)
      requires Valid() && used < MAX_SIZE
      modifies this, repr
      ensures Valid() && added == (key !in old(contents)) && contents == old(contents)[key := val]
      ensures fresh(repr - old(repr))
    {
      hide Bucket, IsPowerOfTwo, Shape, Holds, NoDup, Concat, Linked, Objects, Means;
      added := Add(key, val);
      if added {
        return;
      }
      var entry := Find(key);
      SetValue(entry, val);
    }

    method SetValue(entry: Entry<K, V>, val: V)
      requires Valid() && entry in Objects(chains)
      modifies this`contents, entry`val
      ensures Valid() && contents == old(contents)[entry.key := val]
    {
      hide Bucket, IsPowerOfTwo, Concat, Linked;
      entry.val := val;
      contents := contents[entry.key := val];
    }

    lemma Slots()
      requires Valid()
      ensures size == |chains| == table.Length
    {
    }

    lemma HeadOf(i: nat)
      requires Valid() && i < size
      ensures i < table.Length && i < |chains| && table[i] == At(chains[i], 0)
    {
      hide Concat, Shape, Means, IsPowerOfTwo;
      assert Linked(table[i], chains[i]);
    }

    lemma NextOf(i: nat, j: nat)
      requires Valid() && i < |chains| && j < |chains[i]|
      ensures chains[i][j].next == At(chains[i], j + 1)
    {
      hide Concat, Shape, Means, IsPowerOfTwo;
      assert Linked(table[i], chains[i]);
    }

    lemma Holder(i: nat, j: nat)
      requires Valid() && i < |chains| && j < |chains[i]|
      ensures chains[i][j].key in contents && Shape(hash, chains)
    {
      hide Concat, Shape, IsPowerOfTwo, Linked, Bucket, Holds;
      assert chains[i][j] in Objects(chains);
    }

    /** Where an entry sits in a table is determined by its key. */
    static lemma SamePlace(hash: K -> nat, chains: seq<seq<Entry<K, V>>>, i: nat, j: nat, h: nat, k: nat)
      requires Shape(hash, chains) && i < |chains| && j < |chains[i]| && h < |chains| && k < |chains[h]|
      requires chains[i][j].key == chains[h][k].key
      ensures i == h && j == k
    {
      hide Bucket;
      assert Bucket(hash, chains[i][j].key, |chains|) == i;
      assert Bucket(hash, chains[h][k].key, |chains|) == h;
      assert NoDup(chains[i]);
    }

    lemma EachKeyOnce()
      requires Valid()
      ensures Enumerates(Concat(chains), contents)
    {
      hide Concat, Shape, IsPowerOfTwo, Linked, Bucket;
      ConcatNoDup(hash, chains);
      forall k | k in contents ensures exists p :: 0 <= p < |Concat(chains)| && Concat(chains)[p].key == k {
        var b := Bucket(hash, k, |chains|);
        var j :| 0 <= j < |chains[b]| && chains[b][j].key == k;
        ConcatAt(chains, b, j);
      }
      forall p | 0 <= p < |Concat(chains)| ensures Concat(chains)[p].key in contents {
        var i, j := ConcatIn(chains, p);
        assert chains[i][j] in Objects(chains);
      }
    }

    /** Puts an entry for a new key in front of its chain. */
    method Insert(index: nat, key: K, val: V)
      requires Valid() && key !in contents && used < size && index == Bucket(hash, key, size)
      modifies this, repr
      ensures Valid() && contents == old(contents)[key := val] && used == old(used) + 1 && size == old(size)
      ensures fresh(repr - old(repr))
    {
      hide Bucket, IsPowerOfTwo, Shape, Means, Holds, NoDup, Concat, Linked;
      var entry := new Entry(key, val, table[index]);
      InChain(hash, chains, contents, key);
      InsertShape(hash, chains, index, entry);
      InsertMeans(hash, chains, contents, index, entry);
      InsertLength(chains, index, entry);
      InsertObjects(chains, index, entry);
      LinkFront(table[index], chains[index], entry);
      table[index] := entry;
      chains := chains[index := [entry] + chains[index]];
      contents := contents[key := val];
      repr := repr + {entry};
      used := used + 1;
    }

    /** Unlinks the entry of the key, the j-th of chain h. */
    method Delete(key: K) returns (found: bool, ghost h: nat, ghost j: nat)
      requires Valid()
      modifies this, repr
      ensures Valid() && repr == old(repr) && size == old(size)
      ensures found == (key in old(contents)) && contents == old(contents) - {key}
      ensures if found then Removed(old(chains), chains, h, j, key) else chains == old(chains)
    {
      hide Bucket, IsPowerOfTwo, Shape, Means, Holds, NoDup, Concat, Linked, Objects;
      found, h, j := false, 0, 0;
      if size == 0 {
        assert contents == map[];
        return;
      }
      var slot := Bucket(hash, key, size);
      h := slot;
      var de, prevde;
      de, prevde, j := Search(table[slot], key, chains[slot]);
      InChain(hash, chains, contents, key);
      if de == null {
        return;
      }
      Unlink(slot, de, prevde, j);
      RemoveMeans(hash, chains, contents, slot, j);
      RemoveShape(hash, chains, slot, j);
      RemoveLength(chains, slot, j);
      RemoveObjects(chains, slot, j);
      chains := chains[slot := chains[slot][..j] + chains[slot][j + 1..]];
      contents := contents - {key};
      used := used - 1;
      found := true;
    }

    /** Relinks around the entry `de`. */
    method Unlink(slot: nat, de: Entry<K, V>, prevde: Entry?<K, V>, ghost j: nat)
      requires Valid() && slot < size && j < |chains[slot]| && chains[slot][j] == de
      requires prevde == if j > 0 then chains[slot][j - 1] else null
      modifies table, chains[slot]`next
      ensures forall i :: 0 <= i < size && i != slot ==> Linked(table[i], chains[i])
      ensures Linked(table[slot], chains[slot][..j] + chains[slot][j + 1..])
    {
      hide Bucket, IsPowerOfTwo, Means, Holds, Concat;
      ghost var c := chains[slot];
      assert Linked(table[slot], c);
      assert NoDup(c);
      assert j > 0 ==> forall k :: 0 <= k < |c| && k != j - 1 ==> c[k] != prevde;
      if prevde != null {
        prevde.next := de.next;
      } else {
        table[slot] := de.next;
      }
      SkipOver(table[slot], chains[slot], j);
    }
  }

  // ---------- iteration ----------

  class Iterator<K(==,!new), V> {
    const ht: Dict<K, V>
    var index: int
    var entry: Entry?<K, V>
    var nextEntry: Entry?<K, V>
    /** The position of nextEntry in its chain, and all that is still to be returned. */
    ghost var pos: nat
    ghost var todo: seq<Entry<K, V>>

    ghost predicate Valid()
      reads this, ht
    {
      && -1 <= index && this !in ht.repr
      && if entry == null then todo == After(ht.chains, index) else
        && 0 <= index < |ht.chains| && pos <= |ht.chains[index]|
        && nextEntry == At(ht.chains[index], pos)
        && todo == ht.chains[index][pos..] + After(ht.chains, index)
    }

    /** dictGetIterator */
    constructor (ht: Dict<K, V>)
      ensures Valid() && this.ht == ht && todo == Concat(ht.chains)
    {
      this.ht := ht;
      index, entry, nextEntry, pos := -1, null, null, 0;
      todo := Concat(ht.chains);
    }

    /** dictNext: the entries come in the order of the slots and chains, and null after the last one. */
    method Next() returns (e: Entry?<K, V>)
      requires Valid() && ht.Valid()
      modifies this
      ensures Valid()
      ensures old(todo) == [] ==> e == null
      ensures old(todo) != [] ==> e == old(todo)[0] && todo == old(todo)[1..] && JustReturned(old(todo)[0])
    {
      hide Concat, After, Linked, Dict.Valid;
      ht.Slots();
      while true
        invariant Valid() && todo == old(todo) && ht.Valid()
        decreases |ht.chains| - index, if entry == null then 0 else 1
      {
        if entry == null {
          AfterStep(ht.chains, index);
          index := index + 1;
          if index >= ht.size {
            AfterStep(ht.chains, index);
            break;
          }
          entry := ht.table[index];
          pos := 0;
          ht.HeadOf(index);
        } else {
          entry := nextEntry;
        }
        assert entry == At(ht.chains[index], pos) && todo == ht.chains[index][pos..] + After(ht.chains, index);
        if entry != null {
          nextEntry := entry.next;
          ht.NextOf(index, pos);
          TakeFirst(ht.chains[index], pos, After(ht.chains, index));
          pos := pos + 1;
          todo := todo[1..];
          return entry;
        }
        assert ht.chains[index][pos..] + After(ht.chains, index) == After(ht.chains, index);
      }
      return null;
    }

    /** The iterator stands right behind e. */
    ghost predicate JustReturned(e: Entry<K, V>)
      reads this, ht
    {
      entry == e && 0 <= index < |ht.chains| && 0 < pos <= |ht.chains[index]| && ht.chains[index][pos - 1] == e
    }
  }

  lemma TakeFirst<T>(c: seq<T>, pos: nat, rest: seq<T>)
    requires pos < |c|
    ensures c[pos..] + rest == [c[pos]] + (c[pos + 1..] + rest)
  {
  }

  /** The entries of the chains behind slot i. */
  ghost function After<K, V>(chains: seq<seq<Entry<K, V>>>, i: int): seq<Entry<K, V>>
    requires i >= -1
  {
    if i + 1 < |chains| then Concat(chains[i + 1..]) else []
  }

  lemma AfterStep<K, V>(chains: seq<seq<Entry<K, V>>>, i: int)
    requires i >= -1
    ensures After(chains, i) == if i + 1 < |chains| then chains[i + 1] + After(chains, i + 1) else []
  {
    if i + 1 < |chains| {
      assert chains[i + 1..][1..] == chains[i + 2..];
    }
  }

  /** Deleting the entry that was just returned leaves the iterator on its way. */
  method DeleteReturned<K(==,!new), V>(it: Iterator<K, V>, e: Entry<K, V>)
    requires it.Valid() && it.ht.Valid() && it.JustReturned(e)
    modifies it.ht, it.ht.repr, it`pos
    ensures it.Valid() && it.ht.Valid() && it.todo == old(it.todo) && it.ht.repr == old(it.ht.repr)
    ensures it.ht.contents == old(it.ht.contents) - {e.key}
  {
    hide Concat, Means, Bucket, IsPowerOfTwo, Shape, After, Linked, Dict.Valid;
    var ht := it.ht;
    ghost var before := ht.chains;
    ghost var i, p := it.index, it.pos;
    ht.Holder(i, p - 1);
    ghost var h, j;
    var found;
    found, h, j := ht.Delete(e.key);
    Dict<K, V>.SamePlace(ht.hash, before, i, p - 1, h, j);
    AfterUpdate(before, ht.chains, i);
    it.pos := p - 1;
    assert ht.chains[i][p - 1..] == before[i][p..];
  }

  /** Every key of the map has exactly one entry in the list, and no other key has one. */
  ghost predicate Enumerates<K(!new), V>(visited: seq<Entry<K, V>>, contents: map<K, V>) {
    && NoDup(visited)
    && forall k :: k in contents <==> exists p :: 0 <= p < |visited| && visited[p].key == k
  }

  ghost function Spared<K, V>(contents: map<K, V>, doomed: K -> bool): map<K, V> {
    map k | k in contents && !doomed(k) :: contents[k]
  }

  /** The keys among the visited ones that the caller picked. */
  ghost predicate Picked<K(!new), V>(gone: set<K>, visited: seq<Entry<K, V>>, doomed: K -> bool) {
    forall k :: k in gone <==> doomed(k) && exists p :: 0 <= p < |visited| && visited[p].key == k
  }

  lemma PickedNone<K(!new), V>(visited: seq<Entry<K, V>>, doomed: K -> bool)
    requires visited == []
    ensures Picked({}, visited, doomed)
  {
  }

  lemma PickedNext<K(!new), V>(gone: set<K>, visited: seq<Entry<K, V>>, e: Entry<K, V>, doomed: K -> bool)
    requires Picked(gone, visited, doomed)
    ensures Picked(if doomed(e.key) then gone + {e.key} else gone, visited + [e], doomed)
  {
    var after := visited + [e];
    assert after[|visited|] == e;
    assert forall p :: 0 <= p < |visited| ==> after[p] == visited[p];
  }

  /** Visits the whole table, deleting the entries that `doomed` picks as they come. */
  method Sweep<K(==,!new), V>(ht: Dict<K, V>, doomed: K -> bool) returns (ghost visited: seq<Entry<K, V>>)
    requires ht.Valid()
    modifies ht, ht.repr
    ensures ht.Valid()
    ensures visited == old(Concat(ht.chains)) && Enumerates(visited, old(ht.contents))
    ensures ht.contents == Spared(old(ht.contents), doomed)
  {
    hide Concat, Means, Bucket, IsPowerOfTwo, Shape, After, Linked, Dict.Valid, Iterator.Valid, Iterator.JustReturned, Picked, Enumerates, Spared;
    ghost var all := Concat(ht.chains);
    ghost var contents := ht.contents;
    ht.EachKeyOnce();
    visited := [];
    ghost var gone: set<K> := {};
    PickedNone(visited, doomed);
    var it := new Iterator(ht);
    while true
      invariant it.Valid() && ht.Valid() && it.ht == ht && fresh(it) && ht.repr == old(ht.repr)
      invariant visited + it.todo == all
      invariant ht.contents == contents - gone
      invariant Picked(gone, visited, doomed)
      decreases |it.todo|
    {
      ghost var todo := it.todo;
      var e := it.Next();
      if e == null {
        break;
      }
      PickedNext(gone, visited, e, doomed);
      visited := visited + [e];
      if doomed(e.key) {
        DeleteReturned(it, e);
        gone := gone + {e.key};
      }
    }
    assert visited == all;
    PickedAll(contents, gone, visited, doomed);
  }

  lemma PickedAll<K(!new), V>(contents: map<K, V>, gone: set<K>, visited: seq<Entry<K, V>>, doomed: K -> bool)
    requires Picked(gone, visited, doomed) && Enumerates(visited, contents)
    ensures contents - gone == Spared(contents, doomed)
  {
  }

  lemma AfterUpdate<K, V>(before: seq<seq<Entry<K, V>>>, after: seq<seq<Entry<K, V>>>, i: nat)
    requires i < |before| == |after| && forall b :: i < b < |before| ==> after[b] == before[b]
    ensures After(after, i) == After(before, i)
  {
    assert after[i + 1..] == before[i + 1..];
  }

  lemma {:induction false} ConcatIn<K, V>(chains: seq<seq<Entry<K, V>>>, p: nat) returns (i: nat, j: nat)
    requires p < |Concat(chains)|
    ensures i < |chains| && j < |chains[i]| && chains[i][j] == Concat(chains)[p]
    ensures p == |Concat(chains[..i])| + j
  {
    if p < |chains[0]| {
      i, j := 0, p;
    } else {
      i, j := ConcatIn(chains[1..], p - |chains[0]|);
      i := i + 1;
      assert chains[..i][1..] == chains[1..][..i - 1];
    }
  }

  lemma ConcatAt<K, V>(chains: seq<seq<Entry<K, V>>>, i: nat, j: nat)
    requires i < |chains| && j < |chains[i]|
    ensures |Concat(chains[..i])| + j < |Concat(chains)| && Concat(chains)[|Concat(chains[..i])| + j] == chains[i][j]
  {
    ConcatSplit(chains, i);
    assert chains[i..][0] == chains[i];
  }

  /** No key occurs twice in the whole table. */
  lemma ConcatNoDup<K, V>(hash: K -> nat, chains: seq<seq<Entry<K, V>>>)
    requires Shape(hash, chains)
    ensures NoDup(Concat(chains))
  {
    hide Bucket, Concat;
    var all := Concat(chains);
    forall p, q | 0 <= p < q < |all| ensures all[p].key != all[q].key {
      var i, j := ConcatIn(chains, p);
      var k, l := ConcatIn(chains, q);
      assert Bucket(hash, chains[i][j].key, |chains|) == i;
      assert Bucket(hash, chains[k][l].key, |chains|) == k;
      if i == k {
        assert NoDup(chains[i]);
      }
    }
  }

  /** A key is bound exactly when the chain of its slot holds it. */
  lemma InChain<K(!new), V>(hash: K -> nat, chains: seq<seq<Entry<K, V>>>, contents: map<K, V>, key: K)
    requires Means(hash, chains, contents) && |chains| > 0
    ensures key in contents <==> Holds(chains[Bucket(hash, key, |chains|)], key)
    ensures forall j :: 0 <= j < |chains[Bucket(hash, key, |chains|)]| ==> chains[Bucket(hash, key, |chains|)][j] in Objects(chains)
  {
    hide Bucket;
    var h := Bucket(hash, key, |chains|);
    if Holds(chains[h], key) {
      var j :| 0 <= j < |chains[h]| && chains[h][j].key == key;
      assert chains[h][j] in Objects(chains);
    }
  }

  lemma InsertShape<K, V>(hash: K -> nat, chains: seq<seq<Entry<K, V>>>, index: nat, e: Entry<K, V>)
    requires Shape(hash, chains) && index < |chains| && Bucket(hash, e.key, |chains|) == index && !Holds(chains[index], e.key)
    ensures Shape(hash, chains[index := [e] + chains[index]])
  {
    hide Bucket;
    var c := [e] + chains[index];
    forall j, k | 0 <= j < k < |c| ensures c[j].key != c[k].key {
      assert c[k] == chains[index][k - 1];
    }
  }

  lemma InsertObjects<K, V>(chains: seq<seq<Entry<K, V>>>, index: nat, e: Entry<K, V>)
    requires index < |chains|
    ensures Objects(chains[index := [e] + chains[index]]) == Objects(chains) + {e}
  {
    var after := chains[index := [e] + chains[index]];
    forall x | x in Objects(chains) ensures x in Objects(after) {
      var i, j :| 0 <= i < |chains| && 0 <= j < |chains[i]| && chains[i][j] == x;
      assert after[i][if i == index then j + 1 else j] == x;
    }
    assert after[index][0] == e;
    forall x | x in Objects(after) ensures x in Objects(chains) + {e} {
      var i, j :| 0 <= i < |after| && 0 <= j < |after[i]| && after[i][j] == x;
      if i == index && j > 0 {
        assert chains[i][j - 1] == x;
      }
    }
  }

  lemma InsertMeans<K(!new), V>(hash: K -> nat, chains: seq<seq<Entry<K, V>>>, contents: map<K, V>, index: nat, e: Entry<K, V>)
    requires Means(hash, chains, contents) && index < |chains| && Bucket(hash, e.key, |chains|) == index && e.key !in contents
    ensures Means(hash, chains[index := [e] + chains[index]], contents[e.key := e.val])
  {
    hide Bucket;
    var after := chains[index := [e] + chains[index]];
    InsertObjects(chains, index, e);
    forall k | k in contents[e.key := e.val] ensures Holds(after[Bucket(hash, k, |after|)], k) {
      var b := Bucket(hash, k, |after|);
      if k == e.key {
        assert after[b][0].key == k;
      } else {
        var j :| 0 <= j < |chains[b]| && chains[b][j].key == k;
        assert after[b][if b == index then j + 1 else j].key == k;
      }
    }
  }

  lemma InsertLength<K, V>(chains: seq<seq<Entry<K, V>>>, index: nat, e: Entry<K, V>)
    requires index < |chains|
    ensures |Concat(chains[index := [e] + chains[index]])| == |Concat(chains)| + 1
  {
    ReplaceLength(chains, index, [e] + chains[index]);
  }

  lemma RemoveShape<K, V>(hash: K -> nat, chains: seq<seq<Entry<K, V>>>, h: nat, j: nat)
    requires Shape(hash, chains) && h < |chains| && j < |chains[h]|
    ensures Shape(hash, chains[h := chains[h][..j] + chains[h][j + 1..]])
  {
    hide Bucket;
    var c := chains[h][..j] + chains[h][j + 1..];
    forall i, k | 0 <= i < k < |c| ensures c[i].key != c[k].key {
      assert c[i] == chains[h][if i < j then i else i + 1];
      assert c[k] == chains[h][if k < j then k else k + 1];
    }
  }

  lemma RemoveObjects<K, V>(chains: seq<seq<Entry<K, V>>>, h: nat, j: nat)
    requires h < |chains| && j < |chains[h]|
    ensures Objects(chains[h := chains[h][..j] + chains[h][j + 1..]]) <= Objects(chains)
  {
    var c := chains[h][..j] + chains[h][j + 1..];
    var after := chains[h := c];
    forall x | x in Objects(after) ensures x in Objects(chains) {
      var i, k :| 0 <= i < |after| && 0 <= k < |after[i]| && after[i][k] == x;
      if i == h {
        assert c[k] == chains[h][if k < j then k else k + 1];
      }
    }
  }

  lemma RemoveMeans<K(!new), V>(hash: K -> nat, chains: seq<seq<Entry<K, V>>>, contents: map<K, V>, h: nat, j: nat)
    requires Means(hash, chains, contents) && Shape(hash, chains) && h < |chains| && j < |chains[h]|
    ensures Means(hash, chains[h := chains[h][..j] + chains[h][j + 1..]], contents - {chains[h][j].key})
  {
    hide Bucket;
    var c := chains[h][..j] + chains[h][j + 1..];
    var after := chains[h := c];
    var gone := chains[h][j].key;
    RemoveObjects(chains, h, j);
    forall e | e in Objects(after) ensures e.key != gone {
      var i, k :| 0 <= i < |after| && 0 <= k < |after[i]| && after[i][k] == e;
      if i == h {
        assert c[k] == chains[h][if k < j then k else k + 1];
      } else {
        assert Bucket(hash, chains[i][k].key, |chains|) == i;
      }
    }
    forall k | k in contents - {gone} ensures Holds(after[Bucket(hash, k, |after|)], k) {
      var b := Bucket(hash, k, |after|);
      var i :| 0 <= i < |chains[b]| && chains[b][i].key == k;
      assert after[b][if b == h && i > j then i - 1 else i].key == k;
    }
  }

  lemma RemoveLength<K, V>(chains: seq<seq<Entry<K, V>>>, h: nat, j: nat)
    requires h < |chains| && j < |chains[h]|
    ensures |Concat(chains[h := chains[h][..j] + chains[h][j + 1..]])| == |Concat(chains)| - 1
  {
    ReplaceLength(chains, h, chains[h][..j] + chains[h][j + 1..]);
  }

  lemma ReplaceLength<T>(chains: seq<seq<T>>, index: nat, c: seq<T>)
    requires index < |chains|
    ensures |Concat(chains[index := c])| - |c| == |Concat(chains)| - |chains[index]|
  {
    var after := chains[index := c];
    ConcatSplit(chains, index);
    ConcatSplit(after, index);
    assert after[..index] == chains[..index];
    assert after[index..][0] == c && after[index..][1..] == chains[index..][1..];
    assert chains[index..][0] == chains[index];
  }

  /** One chain lost its j-th entry, which held the key. */
  ghost predicate Removed<K, V>(before: seq<seq<Entry<K, V>>>, after: seq<seq<Entry<K, V>>>, h: nat, j: nat, key: K) {
    && h < |before| && j < |before[h]| && before[h][j].key == key
    && after == before[h := before[h][..j] + before[h][j + 1..]]
  }

  // ---------- rehashing ----------

  lemma RealsizeFits(requested: nat, realsize: nat)
    requires requested <= MAX_SIZE && IsPowerOfTwo(realsize) && realsize >= INITIAL_SIZE
    requires realsize > INITIAL_SIZE ==> realsize / 2 < requested
    ensures GoodSize(realsize) && realsize > 0
  {
    if realsize > MAX_SIZE {
      MaxIsPower();
      PowerGap(MAX_SIZE, realsize);
    }
  }

  lemma EmptyTable<K, V>(hash: K -> nat, n: array<Entry?<K, V>>, chains: seq<seq<Entry<K, V>>>)
    requires |chains| == n.Length && forall b :: 0 <= b < n.Length ==> n[b] == null && chains[b] == []
    ensures Shape(hash, chains) && forall b :: 0 <= b < n.Length ==> Linked(n[b], chains[b])
    ensures Objects(chains) == {} && Concat(chains) == []
  {
    NothingIn(chains);
  }

  lemma {:induction false} NothingIn<T>(chains: seq<seq<T>>)
    requires forall b :: 0 <= b < |chains| ==> chains[b] == []
    ensures Concat(chains) == []
  {
    if chains != [] {
      NothingIn(chains[1..]);
    }
  }

  lemma NothingMoved<K, V>(chains: seq<seq<Entry<K, V>>>)
    ensures Objects(chains[..0]) == {} && Concat(chains[..0]) == []
  {
  }

  /** Entries of different slots have different keys. */
  lemma KeysApart<K, V>(hash: K -> nat, chains: seq<seq<Entry<K, V>>>, i: nat)
    requires Shape(hash, chains) && i < |chains|
    ensures NoDup(chains[i])
    ensures forall e, j :: e in Objects(chains[..i]) && 0 <= j < |chains[i]| ==> e.key != chains[i][j].key
  {
    hide Bucket;
    forall e, j | e in Objects(chains[..i]) && 0 <= j < |chains[i]| ensures e.key != chains[i][j].key {
      var b, k :| 0 <= b < |chains[..i]| && 0 <= k < |chains[..i][b]| && chains[..i][b][k] == e;
      assert chains[b][k] == e;
      assert Bucket(hash, chains[b][k].key, |chains|) == b;
    }
  }

  lemma ChainsApart<K, V>(hash: K -> nat, chains: seq<seq<Entry<K, V>>>, i: nat)
    requires Shape(hash, chains) && i < |chains|
    ensures forall b, e :: i < b < |chains| && e in chains[b] ==> e !in chains[i] && e in Objects(chains)
  {
    hide Bucket;
    forall b, e | i < b < |chains| && e in chains[b] ensures e !in chains[i] && e in Objects(chains) {
      var k :| 0 <= k < |chains[b]| && chains[b][k] == e;
      assert Bucket(hash, chains[b][k].key, |chains|) == b;
    }
  }

  /** A table with the same entries in the right slots means the same. */
  lemma RehashMeans<K(!new), V>(hash: K -> nat, chains: seq<seq<Entry<K, V>>>, moved: seq<seq<Entry<K, V>>>, contents: map<K, V>)
    requires Means(hash, chains, contents) && Shape(hash, moved) && |moved| > 0 && Objects(moved) == Objects(chains)
    ensures Means(hash, moved, contents)
  {
    hide Bucket;
    forall k | k in contents ensures Holds(moved[Bucket(hash, k, |moved|)], k) {
      var b := Bucket(hash, k, |chains|);
      var j :| 0 <= j < |chains[b]| && chains[b][j].key == k;
      var e := chains[b][j];
      assert e in Objects(chains);
      var i, t :| 0 <= i < |moved| && 0 <= t < |moved[i]| && moved[i][t] == e;
      assert Bucket(hash, moved[i][t].key, |moved|) == i;
    }
  }

  lemma OneMoreChain<K, V>(chains: seq<seq<Entry<K, V>>>, i: nat)
    requires i < |chains|
    ensures Objects(chains[..i + 1]) == Objects(chains[..i]) + (set e | e in chains[i])
    ensures |Concat(chains[..i + 1])| == |Concat(chains[..i])| + |chains[i]| <= |Concat(chains)|
    ensures (set e | e in chains[i]) <= Objects(chains)
  {
    assert chains[..i + 1] == chains[..i] + [chains[i]];
    ConcatAppend(chains[..i], chains[i]);
    ConcatSplit(chains, i + 1);
    forall e | e in Objects(chains[..i]) ensures e in Objects(chains[..i + 1]) {
      var b, k :| 0 <= b < i && 0 <= k < |chains[..i][b]| && chains[..i][b][k] == e;
      assert chains[..i + 1][b][k] == e;
    }
    forall e | e in chains[i] ensures e in Objects(chains[..i + 1]) && e in Objects(chains) {
      var k :| 0 <= k < |chains[i]| && chains[i][k] == e;
      assert chains[..i + 1][i][k] == e;
    }
  }

  /** With as many entries moved as there are, every slot from i on is empty. */
  lemma RestIsEmpty<K, V>(chains: seq<seq<Entry<K, V>>>, i: nat)
    requires i <= |chains| && |Concat(chains[..i])| == |Concat(chains)|
    ensures Objects(chains[..i]) == Objects(chains)
  {
    ConcatSplit(chains, i);
    forall e | e in Objects(chains) ensures e in Objects(chains[..i]) {
      var b, k :| 0 <= b < |chains| && 0 <= k < |chains[b]| && chains[b][k] == e;
      if b >= i {
        OneMoreChain(chains, b);
        ConcatPrefix(chains, i, b);
      }
      assert chains[..i][b][k] == e;
    }
  }

  lemma ConcatPrefix<T>(parts: seq<seq<T>>, i: nat, b: nat)
    requires i <= b <= |parts|
    ensures |Concat(parts[..i])| <= |Concat(parts[..b])|
  {
    ConcatSplit(parts[..b], i);
    assert parts[..b][..i] == parts[..i];
  }
}
