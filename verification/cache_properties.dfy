/**
  Properties of the cache engine that relate several calls or pin down
  exactly what one call changes and what it leaves alone.
 */
module CacheProperties {
  import opened OrderList
  import opened SimpleCache

  /** Index and list agree: the listed ids are exactly the ids the index maps to. */
  lemma ListIsTableValues<V>(c: Cache<V>)
    requires Valid(c)
    ensures forall id :: id in c.order <==> id in c.table.Values
    ensures forall k :: k in c.table ==> c.entries[c.table[k]].key == k
  {
    forall id | id in c.order
      ensures id in c.table.Values
    {
      var k := c.entries[id].key;
      assert c.table[k] == id;
    }
  }

  /**
    Admission refusal: inserting a key is refused exactly when the key is new,
    the cache is at capacity and its LRU entry is busy and live; the refusal
    counts one miss and changes nothing else.
   */
  lemma InsertRejectedIffPinned<V>(c: Cache<V>, key: string, value: V, now: int)
    requires Valid(c)
    ensures var r := InsertOrUpdateKey(c, key, value, now);
            && (r.1.Some? <==> key !in c.table && c.numEntries == c.capacity && LruPinned(c, now))
            && (r.1.Some? ==> r.1 == Some(CacheFull) && r.0 == c.(missCount := c.missCount + 1))
  {
  }

  /**
    Eviction: at capacity with an evictable LRU entry, a new key takes over the
    tail entry, which moves to the head; the evicted key leaves the index and
    every other entry keeps its contents and its relative order.
   */
  lemma EvictionReplacesLru<V>(c: Cache<V>, key: string, value: V, now: int)
    requires Valid(c) && key !in c.table && c.numEntries == c.capacity && !LruPinned(c, now)
    ensures var r := InsertOrUpdateKey(c, key, value, now);
            var lru := c.order[|c.order| - 1];
            && r.1.None?
            && r.0.order == [lru] + c.order[..|c.order| - 1]
            && r.0.table == (c.table - {c.entries[lru].key})[key := lru]
            && c.entries[lru].key !in r.0.table
            && r.0.numEntries == c.numEntries
            && r.0.missCount == c.missCount + 1 && r.0.hitCount == c.hitCount + 1
  {
    var lru := c.order[|c.order| - 1];
    assert c.entries[lru].key != key;
  }

  /** At capacity, the reused tail entry holds the key, the value and the new expiry. */
  lemma EvictionRefillsLru<V>(c: Cache<V>, key: string, value: V, now: int)
    requires Valid(c) && key !in c.table && c.numEntries == c.capacity && !LruPinned(c, now)
    ensures InsertOrUpdateKey(c, key, value, now).0.entries[c.order[|c.order| - 1]]
            == Entry(key, Some(value), now, now + c.ttl, Busy)
  {
    InsertNewKeyKeepsOthers(c, key, value, now);
  }

  /** At capacity, admitting a new key leaves every entry but the reused tail as it was. */
  lemma EvictionKeepsOthers<V>(c: Cache<V>, key: string, value: V, now: int)
    requires Valid(c) && key !in c.table && c.numEntries == c.capacity && !LruPinned(c, now)
    ensures var r := InsertOrUpdateKey(c, key, value, now);
            forall x :: x in c.entries && x != c.order[|c.order| - 1] ==> r.0.entries[x] == c.entries[x]
  {
    InsertNewKeyKeepsOthers(c, key, value, now);
  }

  /** Below capacity, a new key gets a fresh entry linked at the head and indexed under the key. */
  lemma InsertWithRoom<V>(c: Cache<V>, key: string, value: V, now: int)
    requires Valid(c) && key !in c.table && c.numEntries < c.capacity
    ensures var r := InsertOrUpdateKey(c, key, value, now);
            && r.1.None?
            && c.nextId !in c.entries
            && r.0.order == [c.nextId] + c.order
            && r.0.table == c.table[key := c.nextId]
            && r.0.numEntries == c.numEntries + 1
            && r.0.missCount == c.missCount + 1 && r.0.hitCount == c.hitCount + 1
  {
  }

  /**
    Below capacity, the fresh entry holds the key, the value and the new
    expiry, and no other entry changes.
   */
  lemma InsertWithRoomFills<V>(c: Cache<V>, key: string, value: V, now: int)
    requires Valid(c) && key !in c.table && c.numEntries < c.capacity
    ensures var r := InsertOrUpdateKey(c, key, value, now);
            && r.0.entries.Keys == c.entries.Keys + {c.nextId}
            && r.0.entries[c.nextId] == Entry(key, Some(value), now, now + c.ttl, Busy)
            && (forall x :: x in c.entries ==> r.0.entries[x] == c.entries[x])
  {
    InsertNewKeyKeepsOthers(c, key, value, now);
  }

  /**
    Updating a key that is already indexed succeeds, counts only a hit,
    rewrites the value and expiry of its entry and does NOT move it in the list.
   */
  lemma UpdateKeepsPosition<V>(c: Cache<V>, key: string, value: V, now: int)
    requires Valid(c) && key in c.table
    ensures var r := InsertOrUpdateKey(c, key, value, now);
            var id := c.table[key];
            && r.1.None?
            && r.0.order == c.order && r.0.table == c.table
            && r.0.entries == c.entries[id := c.entries[id].(value := Some(value), timestamp := now, expirationTime := now + c.ttl)]
            && r.0.numEntries == c.numEntries
            && r.0.missCount == c.missCount && r.0.hitCount == c.hitCount + 1
  {
  }

  /**
    Most-recently-used after a write: a new key that is admitted becomes the
    head, and with a non-negative TTL GetMRU at the same instant reports it
    with no error.
   */
  lemma NewKeyBecomesMru<V>(c: Cache<V>, key: string, value: V, now: int)
    requires Valid(c) && key !in c.table && c.ttl >= 0
    requires InsertOrUpdateKey(c, key, value, now).1.None?
    ensures var c' := InsertOrUpdateKey(c, key, value, now).0;
            && Mru(c') == Some(c'.table[key])
            && GetMRU(c', now) == (key, Some(value), None)
  {
    InsertNewKeyAtHead(c, key, value, now);
  }

  /**
    Sliding expiration: after a successful read at `t1`, a second read
    succeeds at any `t2` up to `t1 + ttl`, even past the entry's old expiry.
   */
  lemma SlidingExpiration<V>(c: Cache<V>, key: string, t1: int, t2: int)
    requires Valid(c) && key in c.table && t1 <= c.entries[c.table[key]].expirationTime
    requires t1 <= t2 <= t1 + c.ttl
    ensures ReadKey(ReadKey(c, key, t1).0, key, t2).2.None?
  {
  }

  /**
    Most-recently-used after a read: a live, busy entry that is read becomes
    what GetMRU reports, as long as the entry counter is not zero.
   */
  lemma ReadKeyBecomesMru<V>(c: Cache<V>, key: string, now: int)
    requires Valid(c) && key in c.table && now <= c.entries[c.table[key]].expirationTime
    requires c.entries[c.table[key]].state == Busy && c.numEntries > 0 && c.ttl >= 0
    ensures GetMRU(ReadKey(c, key, now).0, now) == (key, c.entries[c.table[key]].value, None)
  {
  }

  /**
    Retry after expiry: a write refused because the LRU entry was live at `t1`
    is admitted at any `t2` after that entry's expiry, evicting exactly it.
   */
  lemma RetryAfterExpiry<V>(c: Cache<V>, key: string, value: V, t1: int, t2: int)
    requires Valid(c) && key !in c.table && c.numEntries == c.capacity
    requires InsertOrUpdateKey(c, key, value, t1).1 == Some(CacheFull)
    requires c.entries[c.order[|c.order| - 1]].expirationTime < t2
    ensures var c1 := InsertOrUpdateKey(c, key, value, t1).0;
            var r := InsertOrUpdateKey(c1, key, value, t2);
            var lru := c.order[|c.order| - 1];
            && r.1.None?
            && r.0.order == [lru] + c.order[..|c.order| - 1]
            && c.entries[lru].key !in r.0.table
            && r.0.table[key] == lru
  {
    InsertRejectedIffPinned(c, key, value, t1);
    var c1 := InsertOrUpdateKey(c, key, value, t1).0;
    EvictionReplacesLru(c1, key, value, t2);
  }

  /**
    Clean zeroes the three counters and marks every entry available, but
    keeps the index, the list and the configuration; the invariant survives.
   */
  lemma CleanResetsAccounting<V>(c: Cache<V>)
    requires Valid(c)
    ensures var c' := Cleaned(c);
            && Valid(c')
            && GetState(c') == CacheState(0, 0, c.ttl, c.capacity, 0)
            && c'.order == c.order && c'.table == c.table
            && c'.entries.Keys == c.entries.Keys
            && (forall id :: id in c'.entries ==> c'.entries[id] == c.entries[id].(state := Available))
  {
  }

  /**
    As written, Clean does not forget keys: a key that was live before Clean
    still reads successfully afterwards, with its old value.
   */
  lemma CleanKeepsKeysReadable<V>(c: Cache<V>, key: string, now: int)
    requires Valid(c) && key in c.table && now <= c.entries[c.table[key]].expirationTime
    ensures var r := ReadKey(Cleaned(c), key, now);
            r.1 == c.entries[c.table[key]].value && r.2.None?
  {
    CleanResetsAccounting(c);
  }

  /** After Clean, GetMRU reports an empty cache whatever the list still holds. */
  lemma CleanedGetMRUIsEmpty<V>(c: Cache<V>, now: int)
    requires Valid(c)
    ensures GetMRU(Cleaned(c), now).2 == Some(EmptyCache)
  {
    CleanResetsAccounting(c);
  }

  /**
    As written, the list can hold more entries than the capacity once Clean
    has run: with capacity 1, one insert, Clean and a second insert leave two
    listed and indexed entries.
   */
  lemma CleanLetsListOutgrowCapacity()
    ensures var c0 := New<int>(1, 1.0, 10).value;
            var c1 := InsertOrUpdateKey(c0, "a", 1, 0).0;
            var c3 := InsertOrUpdateKey(Cleaned(c1), "b", 2, 0).0;
            && |c3.order| == 2 && c3.capacity == 1
            && "a" in c3.table && "b" in c3.table
  {
    var c0 := New<int>(1, 1.0, 10).value;
    InsertWithRoom(c0, "a", 1, 0);
    var c1 := InsertOrUpdateKey(c0, "a", 1, 0).0;
    CleanResetsAccounting(c1);
    InsertWithRoom(Cleaned(c1), "b", 2, 0);
  }

  /**
    The same for any state: after Clean, a new key is always admitted as a
    fresh entry, whatever the list length and the capacity, so the list grows
    by one and the index gains exactly that key.
   */
  lemma CleanThenInsertGrowsList<V>(c: Cache<V>, key: string, value: V, now: int)
    requires Valid(c) && key !in c.table
    ensures Valid(Cleaned(c))
    ensures var r := InsertOrUpdateKey(Cleaned(c), key, value, now);
            && r.1.None?
            && |r.0.order| == |c.order| + 1
            && (forall k :: k in r.0.table <==> k in c.table || k == key)
            && r.0.numEntries == 1 && r.0.capacity == c.capacity
  {
    CleanResetsAccounting(c);
    InsertWithRoom(Cleaned(c), key, value, now);
  }

  /** One round: Clean, then insert a new key. */
  function CleanInsert<V>(c: Cache<V>, key: string, value: V, now: int): (r: Cache<V>)
    requires Valid(c) && key !in c.table
    ensures Valid(r) && r.capacity == c.capacity && |r.order| == |c.order| + 1
    ensures forall k :: k in r.table <==> k in c.table || k == key
  {
    CleanThenInsertGrowsList(c, key, value, now);
    InsertOrUpdateKey(Cleaned(c), key, value, now).0
  }

  /**
    Rounds of Clean followed by one insert of a new key. Each round lengthens
    the list by one, so with more rounds than `capacity` the list is longer
    than the capacity, without bound.
   */
  function CleanInsertRounds<V>(c: Cache<V>, keys: seq<string>, value: V, now: int): (r: Cache<V>)
    requires Valid(c)
    requires forall i :: 0 <= i < |keys| ==> keys[i] !in c.table
    requires forall i, j :: 0 <= i < j < |keys| ==> keys[i] != keys[j]
    ensures Valid(r) && r.capacity == c.capacity
    ensures |r.order| == |c.order| + |keys|
    ensures forall k :: k in r.table <==> k in c.table || k in keys
    ensures |keys| > c.capacity ==> |r.order| > r.capacity
    decreases |keys|
  {
    if |keys| == 0 then c
    else
      var c1 := CleanInsert(c, keys[0], value, now);
      var rest := keys[1..];
      assert forall i :: 0 <= i < |rest| ==> rest[i] == keys[i + 1] && rest[i] != keys[0];
      var r := CleanInsertRounds(c1, rest, value, now);
      assert forall k :: k in keys <==> k == keys[0] || k in rest;
      r
  }

  /** A walk with the iterator from a fresh position visits exactly the list, MRU to LRU. */
  lemma IterationVisitsList<V>(c: Cache<V>)
    requires NoDup(c.order)
    ensures Walk(c, NewCacheIt(c)) == c.order
  {
  }

  /**
    The iterator follows the live list: when a read during a walk moves an
    entry that the walk has not reached yet to the front, the walk goes on
    from the same node and no longer visits that entry.
   */
  lemma ReadDuringWalk<V>(c: Cache<V>, it: CacheIt, key: string, now: int)
    requires Valid(c) && ItValid(c, it) && HasCurr(c, it)
    requires key in c.table && now <= c.entries[c.table[key]].expirationTime
    requires c.table[key] in c.order[Pos(c, it) + 1..]
    ensures var c' := ReadKey(c, key, now).0;
            && ItValid(c', it)
            && Walk(c', it) == Remove(Walk(c, it), c.table[key])
  {
    MoveAheadOfWalk(c, ReadKey(c, key, now).0, it, c.table[key]);
  }

  /**
    Reading the entry the iterator stands on moves it to the head, and the
    iterator with it: the rest of the walk becomes the whole list, so the
    entries already visited come round again.
   */
  lemma ReadCurrentRestartsWalk<V>(c: Cache<V>, it: CacheIt, key: string, now: int)
    requires Valid(c) && ItValid(c, it) && HasCurr(c, it)
    requires key in c.table && now <= c.entries[c.table[key]].expirationTime
    requires it.curr == At(c.table[key])
    ensures var c' := ReadKey(c, key, now).0;
            && ItValid(c', it) && Pos(c', it) == 0
            && Walk(c', it) == c'.order && |Walk(c', it)| == |c.order|
            && (forall x :: x in c.order[..Pos(c, it)] ==> x in Walk(c', it))
  {
    var c' := ReadKey(c, key, now).0;
    var id := c.table[key];
    forall x | x in c.order[..Pos(c, it)]
      ensures x in c'.order
    {
      assert x != id;
      assert x in Remove(c.order, id);
    }
  }

  /**
    An insert that evicts the entry the iterator stands on relinks it at
    the head in the same call, with the iterator still on it: the rest of
    the walk is the whole list again.
   */
  lemma EvictCurrentRestartsWalk<V>(c: Cache<V>, it: CacheIt, key: string, value: V, now: int)
    requires Valid(c) && key !in c.table && c.numEntries == c.capacity && !LruPinned(c, now)
    requires it.curr == At(c.order[|c.order| - 1])
    ensures var c' := InsertOrUpdateKey(c, key, value, now).0;
            && ItValid(c', it) && Pos(c', it) == 0
            && Walk(c', it) == c'.order && |Walk(c', it)| == |c.order|
  {
    EvictionReplacesLru(c, key, value, now);
  }

  /** An insert, admitted or refused, leaves every listed entry listed. */
  lemma InsertKeepsListed<V>(c: Cache<V>, key: string, value: V, now: int, x: Id)
    requires Valid(c) && x in c.order
    ensures x in InsertOrUpdateKey(c, key, value, now).0.order
  {
    if key in c.table {
      UpdateKeepsPosition(c, key, value, now);
    } else {
      InsertNewKeyKeepsOthers(c, key, value, now);
    }
  }

  /** A read, hit or miss, leaves every listed entry listed. */
  lemma ReadKeepsListed<V>(c: Cache<V>, key: string, now: int, x: Id)
    requires Valid(c) && x in c.order
    ensures x in ReadKey(c, key, now).0.order
  {
    if key in c.table && now <= c.entries[c.table[key]].expirationTime && x != c.table[key] {
      assert x in Remove(c.order, c.table[key]);
    }
  }

  /**
    No public operation leaves an entry unlinked: the node an iterator stands
    on is still listed afterwards, so `Next` keeps following the live list.
   */
  lemma ItStaysValid<V>(c: Cache<V>, it: CacheIt, t: Timed<V>)
    requires Valid(c) && ItValid(c, it)
    ensures ItValid(Apply(c, t), it)
  {
    if it.curr.At? {
      match t.op
      case Insert(key, value) => InsertKeepsListed(c, key, value, t.now, it.curr.id);
      case Lookup(key) => ReadKeepsListed(c, key, t.now, it.curr.id);
      case Peek =>
      case Reset => CleanResetsAccounting(c);
    }
  }

  /** The list part of `ReadDuringWalk`: `d` is `c` with `y` moved to the front. */
  lemma MoveAheadOfWalk<V>(c: Cache<V>, d: Cache<V>, it: CacheIt, y: Id)
    requires NoDup(c.order) && NoDup(d.order) && ItValid(c, it) && HasCurr(c, it)
    requires |d.order| > 0 && d.order[0] == y && Remove(d.order, y) == Remove(c.order, y)
    requires y in c.order[Pos(c, it) + 1..]
    ensures ItValid(d, it) && Walk(d, it) == Remove(Walk(c, it), y)
  {
    var p := Pos(c, it);
    MoveToFrontSuffix(c.order, d.order, y, p);
    assert d.order[p + 1] == it.curr.id;
    assert IndexOf(d.order, it.curr.id) == p + 1;
  }

  /** One public operation, applied at a given time. */
  datatype Op<V> = Insert(key: string, value: V) | Lookup(key: string) | Peek | Reset

  datatype Timed<V> = Timed(op: Op<V>, now: int)

  function Apply<V>(c: Cache<V>, t: Timed<V>): (r: Cache<V>)
    requires Valid(c)
    ensures Valid(r) && r.capacity == c.capacity
    ensures !t.op.Reset? ==> |r.order| - r.numEntries == |c.order| - c.numEntries
  {
    match t.op
    case Insert(key, value) => InsertOrUpdateKey(c, key, value, t.now).0
    case Lookup(key) => ReadKey(c, key, t.now).0
    case Peek => c
    case Reset => CleanResetsAccounting(c); Cleaned(c)
  }

  predicate NoReset<V>(ops: seq<Timed<V>>) {
    forall i :: 0 <= i < |ops| ==> !ops[i].op.Reset?
  }

  /**
    Any sequence of operations from a valid state keeps the invariant, hence
    never holds more than `capacity` counted entries; without a reset, the
    entry counter stays equal to the list length if it started so.
   */
  function Run<V>(c: Cache<V>, ops: seq<Timed<V>>): (r: Cache<V>)
    requires Valid(c)
    ensures Valid(r) && r.capacity == c.capacity && r.numEntries <= r.capacity
    ensures NoReset(ops) && c.numEntries == |c.order| ==> r.numEntries == |r.order|
    decreases |ops|
  {
    if |ops| == 0 then c
    else
      assert NoReset(ops) ==> NoReset(ops[1..]);
      Run(Apply(c, ops[0]), ops[1..])
  }
}
