/**
  The TTL + LRU cache engine: a key index, an MRU -> LRU ordering list and a
  fixed-capacity admission policy that refuses to evict a live, busy entry.

  Pointers are replaced by an arena: `entries` maps stable ids to entry
  records, `order` is the ordering list (most recently used first, sentinel
  implicit) and `table` maps each string key to the id of its entry. Every
  public operation is one atomic transition (the mutex is not modelled) and
  takes the current time `now` as an integer; durations are integers too.
 */
module SimpleCache {
  import opened OrderList

  datatype Option<T> = None | Some(value: T)

  datatype CacheError =
    | InvalidCapFactor
    | KeyAdaptationFailed(reason: string)
    | CacheFull
    | NotFound(key: string)
    | Expired(key: string)
    | EmptyCache
    | MruExpired

  datatype Result<T> = Ok(value: T) | Err(error: CacheError)

  /** Outcome of the caller-supplied key stringification. */
  datatype KeyResult = Key(s: string) | KeyFailure(reason: string)

  datatype EntryState = Available | Busy

  /** A cache entry; `value` is `None` for the zeroed record of a fresh allocation. */
  datatype Entry<V> = Entry(
    key: string,
    value: Option<V>,
    timestamp: int,
    expirationTime: int,
    state: EntryState)

  datatype Cache<V> = Cache(
    table: map<string, Id>,
    entries: map<Id, Entry<V>>,
    order: seq<Id>,
    missCount: nat,
    hitCount: nat,
    ttl: int,
    capacity: int,
    numEntries: nat,
    nextId: Id)

  /** Field snapshot reported by the state query. */
  datatype CacheState = CacheState(
    missCount: nat,
    hitCount: nat,
    ttl: int,
    capacity: int,
    numEntries: nat)

  const MinCapFactor: real := 0.1
  const MaxCapFactor: real := 3.0

  /** The zero value of an entry record, as a fresh allocation yields it. */
  function ZeroEntry<V>(): Entry<V> {
    Entry("", None, 0, 0, Available)
  }

  /**
    What every public operation keeps: the capacity bound, the list and the
    arena holding the same ids, and the index agreeing with the list (each
    list entry is stored in `table` under its own key, and nothing else is).
   */
  ghost predicate Valid<V>(c: Cache<V>) {
    && c.capacity > 0
    && c.numEntries <= c.capacity
    && c.numEntries <= |c.order|
    && NoDup(c.order)
    && (forall id :: id in c.order <==> id in c.entries)
    && (forall id :: id in c.entries ==> id < c.nextId)
    && (forall k :: k in c.table ==> c.table[k] in c.entries && c.entries[c.table[k]].key == k)
    && (forall id :: id in c.entries ==> c.entries[id].key in c.table && c.table[c.entries[id].key] == id)
  }

  /** Construction: an empty list, an empty index, zero counters; panics on a bad `capFactor`. */
  function New<V>(capacity: int, capFactor: real, ttl: int): (r: Result<Cache<V>>)
    requires capacity > 0
    ensures r.Err? <==> capFactor < MinCapFactor || capFactor > MaxCapFactor
    ensures r.Err? ==> r.error == InvalidCapFactor
    ensures r.Ok? ==>
              && Valid(r.value)
              && r.value.order == [] && r.value.table == map[]
              && r.value.missCount == 0 && r.value.hitCount == 0 && r.value.numEntries == 0
              && r.value.capacity == capacity && r.value.ttl == ttl
  {
    if capFactor < MinCapFactor || capFactor > MaxCapFactor then Err(InvalidCapFactor)
    else Ok(Cache(map[], map[], [], 0, 0, ttl, capacity, 0, 0))
  }

  /** Expiry is strict: an entry expiring exactly at `now` is still live. */
  predicate HasExpired<V>(e: Entry<V>, now: int) {
    e.expirationTime < now
  }

  /** `head.next`, or nothing when the list is empty. */
  function Mru<V>(c: Cache<V>): (r: Option<Id>)
    ensures r.None? <==> |c.order| == 0
    ensures r.Some? && NoDup(c.order) ==> Remove(c.order, r.value) == c.order[1..]
    ensures NewCacheIt(c).curr == (if r.None? then Sentinel else At(r.value))
  {
    if |c.order| == 0 then None
    else
      assert NoDup(c.order) ==> Remove(c.order, c.order[0]) == c.order[1..] by {
        if NoDup(c.order) { RemoveHead(c.order); }
      }
      Some(c.order[0])
  }

  /** `head.prev`, or nothing when the list is empty. */
  function Lru<V>(c: Cache<V>): (r: Option<Id>)
    ensures r.None? <==> |c.order| == 0
    ensures r.Some? && NoDup(c.order) ==> Remove(c.order, r.value) == c.order[..|c.order| - 1]
  {
    if |c.order| == 0 then None
    else
      assert NoDup(c.order) ==> Remove(c.order, c.order[|c.order| - 1]) == c.order[..|c.order| - 1] by {
        if NoDup(c.order) { RemoveLast(c.order); }
      }
      Some(c.order[|c.order| - 1])
  }

  /** Splice an unlinked entry in right after the sentinel. */
  function InsertAsMru<V>(c: Cache<V>, id: Id): (r: Cache<V>)
    requires id !in c.order
    ensures |r.order| == |c.order| + 1 && r.order[0] == id && Remove(r.order, id) == c.order
    ensures NoDup(c.order) ==> NoDup(r.order)
    ensures r == c.(order := r.order)
  {
    RemoveFront(id, c.order);
    c.(order := [id] + c.order)
  }

  /** Unlink an entry from wherever it sits in the list. */
  function SelfDeleteFromLruList<V>(c: Cache<V>, id: Id): (r: Cache<V>)
    requires id in c.order
    ensures id !in r.order
    ensures forall x :: x != id ==> (x in r.order <==> x in c.order)
    ensures NoDup(c.order) ==> NoDup(r.order) && |r.order| == |c.order| - 1
    ensures r == c.(order := r.order)
  {
    c.(order := Remove(c.order, id))
  }

  /** Move a linked entry to the front; every other entry keeps its relative order. */
  function BecomeMru<V>(c: Cache<V>, id: Id): (r: Cache<V>)
    requires id in c.order && NoDup(c.order)
    ensures NoDup(r.order) && |r.order| == |c.order|
    ensures r.order[0] == id
    ensures Remove(r.order, id) == Remove(c.order, id)
    ensures forall x :: x in r.order <==> x in c.order
    ensures r == c.(order := r.order)
  {
    var r := InsertAsMru(SelfDeleteFromLruList(c, id), id);
    RemoveFront(id, Remove(c.order, id));
    r
  }

  /** The least recently used entry cannot be evicted: it is busy and has not expired. */
  predicate LruPinned<V>(c: Cache<V>, now: int)
    requires |c.order| > 0 && c.order[|c.order| - 1] in c.entries
  {
    var e := c.entries[c.order[|c.order| - 1]];
    !HasExpired(e, now) && e.state == Busy
  }

  /**
    Evict the LRU entry, or refuse with "cache is full". The evicted entry is
    unlinked, marked available and its key dropped from the index; it stays
    in the arena so that allocation can reuse it.
   */
  function EvictLruEntry<V>(c: Cache<V>, now: int): (r: Result<(Cache<V>, Id)>)
    requires |c.order| > 0 && NoDup(c.order) && c.order[|c.order| - 1] in c.entries
    ensures r.Err? <==> LruPinned(c, now)
    ensures r.Err? ==> r.error == CacheFull
    ensures r.Ok? ==>
              var (c', id) := r.value;
              && id == c.order[|c.order| - 1]
              && c'.order == c.order[..|c.order| - 1]
              && c'.table == c.table - {c.entries[id].key}
              && c'.entries == c.entries[id := c.entries[id].(state := Available)]
              && c' == c.(order := c'.order, table := c'.table, entries := c'.entries)
  {
    var id := c.order[|c.order| - 1];
    var e := c.entries[id];
    if !HasExpired(e, now) && e.state == Busy then Err(CacheFull)
    else
      RemoveLast(c.order);
      var c1 := SelfDeleteFromLruList(c, id);
      Ok((c1.(entries := c1.entries[id := e.(state := Available)], table := c1.table - {e.key}), id))
  }

  /** Link an allocated entry as MRU, give it its key, mark it busy and index it. */
  function Link<V>(c: Cache<V>, id: Id, key: string): (r: Cache<V>)
    requires id !in c.order && id in c.entries
  {
    c.(order := [id] + c.order,
       entries := c.entries[id := c.entries[id].(key := key, state := Busy)],
       table := c.table[key := id])
  }

  /**
    Linking splices the entry right after the sentinel, so that unlinking it
    again gives back the old list, indexes it under `key`, gives it that key
    and marks it busy; every other entry, and everything else, is untouched.
   */
  lemma LinkAtHead<V>(c: Cache<V>, id: Id, key: string)
    requires id !in c.order && id in c.entries
    ensures var r := Link(c, id, key);
            && r.order == InsertAsMru(c, id).order
            && |r.order| == |c.order| + 1 && r.order[0] == id && Remove(r.order, id) == c.order
            && (NoDup(c.order) ==> NoDup(r.order))
            && r.table == c.table[key := id]
            && r.entries.Keys == c.entries.Keys
            && r.entries[id] == c.entries[id].(key := key, state := Busy)
            && (forall x :: x in c.entries && x != id ==> r.entries[x] == c.entries[x])
            && r.missCount == c.missCount && r.hitCount == c.hitCount && r.ttl == c.ttl
            && r.capacity == c.capacity && r.numEntries == c.numEntries && r.nextId == c.nextId
  {
  }


  /**
    The state between choosing the entry `id` for `key` and linking it: `Valid`
    except that `id` is in the arena but neither listed nor indexed.
   */
  ghost predicate ReadyToLink<V>(c: Cache<V>, id: Id, key: string) {
    && c.capacity > 0
    && c.numEntries <= c.capacity
    && c.numEntries <= |c.order| + 1
    && NoDup(c.order)
    && id in c.entries && id !in c.order
    && key !in c.table
    && (forall x :: x in c.order ==> x in c.entries)
    && (forall x :: x in c.entries ==> x in c.order || x == id)
    && (forall x :: x in c.entries ==> x < c.nextId)
    && (forall k :: k in c.table ==> c.table[k] in c.entries && c.table[k] != id && c.entries[c.table[k]].key == k)
    && (forall x :: x in c.entries && x != id ==> c.entries[x].key in c.table && c.table[c.entries[x].key] == x)
  }

  lemma LinkValid<V>(c: Cache<V>, id: Id, key: string)
    requires ReadyToLink(c, id, key)
    ensures Valid(Link(c, id, key))
  {
    var c' := Link(c, id, key);
    assert NoDup(c'.order) by {
      assert c'.order == [id] + c.order;
    }
  }

  /** Dropping the evicted key from the index leaves every other entry indexed under its own key. */
  lemma EvictKeepsIndex<V>(c: Cache<V>, now: int)
    requires Valid(c) && c.numEntries == c.capacity && !LruPinned(c, now)
    ensures EvictLruEntry(c, now).Ok?
    ensures var (c1, id) := EvictLruEntry(c, now).value;
            && (forall k :: k in c1.table ==> c1.table[k] in c1.entries && c1.table[k] != id && c1.entries[c1.table[k]].key == k)
            && (forall x :: x in c1.entries && x != id ==> c1.entries[x].key in c1.table && c1.table[c1.entries[x].key] == x)
  {
    var id := c.order[|c.order| - 1];
    var e := c.entries[id];
    var (c1, _) := EvictLruEntry(c, now).value;
    assert c.table[e.key] == id;
    forall k | k in c1.table
      ensures c1.table[k] in c1.entries && c1.table[k] != id && c1.entries[c1.table[k]].key == k
    {
      assert k in c.table && k != e.key;
    }
    forall x | x in c1.entries && x != id
      ensures c1.entries[x].key in c1.table && c1.table[c1.entries[x].key] == x
    {
      assert c.entries[x].key != e.key;
    }
  }

  lemma EvictReady<V>(c: Cache<V>, key: string, now: int)
    requires Valid(c) && key !in c.table && c.numEntries == c.capacity && !LruPinned(c, now)
    ensures EvictLruEntry(c, now).Ok?
    ensures ReadyToLink(EvictLruEntry(c, now).value.0, EvictLruEntry(c, now).value.1, key)
  {
    EvictKeepsIndex(c, now);
    var (c1, id) := EvictLruEntry(c, now).value;
    assert forall x :: x in c1.order <==> x in c.order && x != id by {
      RemoveLast(c.order);
    }
  }

  lemma FreshReady<V>(c: Cache<V>, key: string)
    requires Valid(c) && key !in c.table && c.numEntries < c.capacity
    ensures ReadyToLink(c.(entries := c.entries[c.nextId := ZeroEntry()],
                           numEntries := c.numEntries + 1,
                           nextId := c.nextId + 1), c.nextId, key)
  {
  }

  /** Writing a key of a map twice keeps only the second write. */
  lemma UpdateTwice<K, T>(m: map<K, T>, k: K, a: T, b: T)
    ensures m[k := a][k := b] == m[k := b]
  {
  }

  /**
    Find room for a key that is not indexed yet: a fresh entry while the
    cache holds fewer than `capacity` entries, otherwise the evicted LRU one.
   */
  function AllocateEntry<V>(c: Cache<V>, key: string, now: int): (r: Result<(Cache<V>, Id)>)
    requires Valid(c) && key !in c.table
    ensures r.Err? <==> c.numEntries == c.capacity && LruPinned(c, now)
    ensures r.Err? ==> r.error == CacheFull
    ensures r.Ok? ==>
              var (c', id) := r.value;
              && |c'.order| == (if c.numEntries == c.capacity then |c.order| else |c.order| + 1)
              && c'.numEntries == (if c.numEntries == c.capacity then c.numEntries else c.numEntries + 1)
              && |c'.order| > 0 && c'.order[0] == id
              && key in c'.table && c'.table[key] == id
              && id == (if c.numEntries == c.capacity then c.order[|c.order| - 1] else c.nextId)
              && id in c'.entries && c'.entries[id].key == key && c'.entries[id].state == Busy
              && c'.entries == c.entries[id := (if c.numEntries == c.capacity then c.entries[id] else ZeroEntry()).(key := key, state := Busy)]
              && c'.missCount == c.missCount && c'.hitCount == c.hitCount
              && c'.capacity == c.capacity && c'.ttl == c.ttl
  {
    if c.numEntries == c.capacity then
      match EvictLruEntry(c, now)
      case Err(e) => Err(e)
      case Ok((c1, id)) =>
        EvictReady(c, key, now);
        UpdateTwice(c.entries, id, c.entries[id].(state := Available), c.entries[id].(key := key, state := Busy));
        Ok((Link(c1, id, key), id))
    else
      var id := c.nextId;
      var c1 := c.(entries := c.entries[id := ZeroEntry()],
                   numEntries := c.numEntries + 1,
                   nextId := c.nextId + 1);
      FreshReady(c, key);
      UpdateTwice(c.entries, id, ZeroEntry(), ZeroEntry().(key := key, state := Busy));
      Ok((Link(c1, id, key), id))
  }

  /** Whichever entry allocation picks, linking it re-establishes the invariant. */
  lemma AllocateEntryValid<V>(c: Cache<V>, key: string, now: int)
    requires Valid(c) && key !in c.table && AllocateEntry(c, key, now).Ok?
    ensures Valid(AllocateEntry(c, key, now).value.0)
  {
    if c.numEntries == c.capacity {
      EvictReady(c, key, now);
      var (c1, id) := EvictLruEntry(c, now).value;
      LinkValid(c1, id, key);
    } else {
      FreshReady(c, key);
      LinkValid(c.(entries := c.entries[c.nextId := ZeroEntry()],
                   numEntries := c.numEntries + 1,
                   nextId := c.nextId + 1), c.nextId, key);
    }
  }

  /** Write `value` into entry `id`, stamping it with `now` and a fresh expiry. */
  function SetValue<V>(c: Cache<V>, id: Id, value: V, now: int): (r: Cache<V>)
    requires id in c.entries
    ensures r == c.(entries := r.entries)
    ensures r.entries.Keys == c.entries.Keys
    ensures forall x :: x in c.entries && x != id ==> r.entries[x] == c.entries[x]
    ensures r.entries[id] == c.entries[id].(value := Some(value), timestamp := now, expirationTime := now + c.ttl)
  {
    c.(entries := c.entries[id := c.entries[id].(value := Some(value),
                                                 timestamp := now,
                                                 expirationTime := now + c.ttl)])
  }

  /**
    A written entry stays live up to and including `now + ttl` and is
    expired at every later instant: expiry is strict.
   */
  lemma WrittenEntryExpiry<V>(c: Cache<V>, id: Id, value: V, now: int, later: int)
    requires id in c.entries
    ensures !HasExpired(SetValue(c, id, value, now).entries[id], later) <==> later <= now + c.ttl
  {
  }

  /** Writing a value never touches a key, the list or the index, so the invariant survives. */
  lemma SetValueValid<V>(c: Cache<V>, id: Id, value: V, now: int)
    requires Valid(c) && id in c.entries
    ensures Valid(SetValue(c, id, value, now))
  {
  }

  /**
    The branch of InsertOrUpdate for a key that is not indexed: count a miss,
    allocate an entry for the key, then write the value and count a hit.
   */
  function InsertNewKey<V>(c: Cache<V>, key: string, value: V, now: int): (r: (Cache<V>, Option<CacheError>))
    requires Valid(c) && key !in c.table
    ensures Valid(r.0)
    ensures r.0.capacity == c.capacity && r.0.ttl == c.ttl
    ensures r.1.None? ==>
              && key in r.0.table
              && r.0.entries[r.0.table[key]] == Entry(key, Some(value), now, now + c.ttl, Busy)
              && r.0.hitCount == c.hitCount + 1
    ensures r.1.Some? ==> r.1.value == CacheFull && r.0 == c.(missCount := c.missCount + 1)
    ensures |r.0.order| - r.0.numEntries == |c.order| - c.numEntries
  {
    var c1 := c.(missCount := c.missCount + 1);
    match AllocateEntry(c1, key, now)
    case Err(e) => (c1, Some(e))
    case Ok((c2, id)) =>
      AllocateEntryValid(c1, key, now);
      SetValueValid(c2.(hitCount := c2.hitCount + 1), id, value, now);
      (SetValue(c2.(hitCount := c2.hitCount + 1), id, value, now), None)
  }

  /** A newly inserted key is linked at the head of the list, so it is the most recently used entry. */
  lemma InsertNewKeyAtHead<V>(c: Cache<V>, key: string, value: V, now: int)
    requires Valid(c) && key !in c.table
    ensures var r := InsertNewKey(c, key, value, now);
            r.1.None? ==> key in r.0.table && |r.0.order| > 0 && r.0.order[0] == r.0.table[key] && r.0.numEntries > 0
  {
    var c1 := c.(missCount := c.missCount + 1);
    if AllocateEntry(c1, key, now).Ok? {
      var (c2, id) := AllocateEntry(c1, key, now).value;
      var c3 := SetValue(c2.(hitCount := c2.hitCount + 1), id, value, now);
      assert c3.order == c2.order && c3.table == c2.table && c3.numEntries == c2.numEntries;
    }
  }

  /**
    A newly inserted key takes the entry allocation chose (the LRU tail at
    capacity, a fresh id below it); no other entry of the arena changes.
   */
  lemma InsertNewKeyKeepsOthers<V>(c: Cache<V>, key: string, value: V, now: int)
    requires Valid(c) && key !in c.table
    ensures var r := InsertNewKey(c, key, value, now);
            r.1.None? ==>
              && r.0.table[key] == (if c.numEntries == c.capacity then c.order[|c.order| - 1] else c.nextId)
              && (forall x :: x in c.entries && x != r.0.table[key] ==> x in r.0.entries && r.0.entries[x] == c.entries[x])
  {
    var c1 := c.(missCount := c.missCount + 1);
    assert Valid(c1);
    if AllocateEntry(c1, key, now).Ok? {
      var (c2, id) := AllocateEntry(c1, key, now).value;
      var c3 := SetValue(c2.(hitCount := c2.hitCount + 1), id, value, now);
      forall x | x in c.entries && x != id
        ensures x in c3.entries && c3.entries[x] == c.entries[x]
      {
        assert c2.entries[x] == c.entries[x];
      }
    }
  }

  /**
    The locked part of InsertOrUpdate on an already stringified key. A new
    key counts a miss and needs an allocation; every success counts a hit.
    An existing key is updated in place and keeps its list position.
   */
  function InsertOrUpdateKey<V>(c: Cache<V>, key: string, value: V, now: int): (r: (Cache<V>, Option<CacheError>))
    requires Valid(c)
    ensures Valid(r.0)
    ensures r.0.capacity == c.capacity && r.0.ttl == c.ttl
    ensures r.1.None? ==>
              && key in r.0.table
              && r.0.entries[r.0.table[key]]
                 == (if key in c.table then c.entries[c.table[key]].(value := Some(value), timestamp := now, expirationTime := now + c.ttl)
                     else Entry(key, Some(value), now, now + c.ttl, Busy))
              && r.0.hitCount == c.hitCount + 1
    ensures r.1.Some? ==> r.1.value == CacheFull && r.0 == c.(missCount := c.missCount + 1)
    ensures |r.0.order| - r.0.numEntries == |c.order| - c.numEntries
  {
    if key in c.table then
      var id := c.table[key];
      SetValueValid(c.(hitCount := c.hitCount + 1), id, value, now);
      (SetValue(c.(hitCount := c.hitCount + 1), id, value, now), None)
    else InsertNewKey(c, key, value, now)
  }

  /** InsertOrUpdate: a failing key stringification returns its error and changes nothing. */
  function InsertOrUpdate<K, V>(c: Cache<V>, toMapKey: K -> KeyResult, key: K, value: V, now: int): (r: (Cache<V>, Option<CacheError>))
    requires Valid(c)
    ensures Valid(r.0)
    ensures toMapKey(key).KeyFailure? ==> r == (c, Some(KeyAdaptationFailed(toMapKey(key).reason)))
    ensures toMapKey(key).Key? ==> r == InsertOrUpdateKey(c, toMapKey(key).s, value, now)
  {
    match toMapKey(key)
    case KeyFailure(reason) => (c, Some(KeyAdaptationFailed(reason)))
    case Key(s) => InsertOrUpdateKey(c, s, value, now)
  }

  /** Moving a listed entry to the front keeps the invariant. */
  lemma BecomeMruValid<V>(c: Cache<V>, id: Id)
    requires Valid(c) && id in c.order
    ensures Valid(BecomeMru(c, id))
  {
  }

  /**
    The locked part of Read. A missing key and an expired key both count a
    miss; the expired one still hands back its stale value. A live key counts
    a hit, gets a fresh expiry and moves to the front.
   */
  function ReadKey<V>(c: Cache<V>, key: string, now: int): (r: (Cache<V>, Option<V>, Option<CacheError>))
    requires Valid(c)
    ensures Valid(r.0)
    ensures r.0.table == c.table && r.0.numEntries == c.numEntries && r.0.capacity == c.capacity && r.0.ttl == c.ttl
    ensures |r.0.order| == |c.order|
    ensures key !in c.table ==> r == (c.(missCount := c.missCount + 1), None, Some(NotFound(key)))
    ensures key in c.table && c.entries[c.table[key]].expirationTime < now ==>
              r == (c.(missCount := c.missCount + 1), c.entries[c.table[key]].value, Some(Expired(key)))
    ensures key in c.table && now <= c.entries[c.table[key]].expirationTime ==>
              var id := c.table[key];
              && r.1 == c.entries[id].value && r.2.None?
              && |r.0.order| > 0 && r.0.order[0] == id
              && Remove(r.0.order, id) == Remove(c.order, id)
              && r.0.entries == c.entries[id := c.entries[id].(expirationTime := now + c.ttl)]
              && r.0.missCount == c.missCount && r.0.hitCount == c.hitCount + 1
  {
    if key !in c.table then
      (c.(missCount := c.missCount + 1), None, Some(NotFound(key)))
    else
      var id := c.table[key];
      var e := c.entries[id];
      if HasExpired(e, now) then
        (c.(missCount := c.missCount + 1), e.value, Some(Expired(key)))
      else
        var c1 := c.(hitCount := c.hitCount + 1,
                     entries := c.entries[id := e.(expirationTime := now + c.ttl)]);
        BecomeMruValid(c1, id);
        (BecomeMru(c1, id), e.value, None)
  }

  /** Read: a failing key stringification returns no value, its error, and changes nothing. */
  function Read<K, V>(c: Cache<V>, toMapKey: K -> KeyResult, key: K, now: int): (r: (Cache<V>, Option<V>, Option<CacheError>))
    requires Valid(c)
    ensures Valid(r.0)
    ensures toMapKey(key).KeyFailure? ==> r == (c, None, Some(KeyAdaptationFailed(toMapKey(key).reason)))
    ensures toMapKey(key).Key? ==> r == ReadKey(c, toMapKey(key).s, now)
  {
    match toMapKey(key)
    case KeyFailure(reason) => (c, None, Some(KeyAdaptationFailed(reason)))
    case Key(s) => ReadKey(c, s, now)
  }

  /**
    Peek at the head of the list without touching it. The emptiness test is
    on the entry counter, not on the list.
   */
  function GetMRU<V>(c: Cache<V>, now: int): (r: (string, Option<V>, Option<CacheError>))
    requires Valid(c)
    ensures r.2 == Some(EmptyCache) <==> c.numEntries == 0
    ensures c.numEntries == 0 ==> r == ("", None, Some(EmptyCache))
    ensures c.numEntries > 0 ==>
              && Mru(c).Some?
              && var e := c.entries[Mru(c).value];
              && r.0 == e.key && r.1 == e.value
              && (r.2.Some? <==> e.expirationTime < now || e.state == Available)
              && (r.2.Some? ==> r.2 == Some(MruExpired))
  {
    if c.numEntries == 0 then ("", None, Some(EmptyCache))
    else
      var e := c.entries[c.order[0]];
      if HasExpired(e, now) || e.state == Available then (e.key, e.value, Some(MruExpired))
      else (e.key, e.value, None)
  }

  /** Field snapshot of the counters and configuration. */
  function GetState<V>(c: Cache<V>): (r: CacheState)
    ensures Valid(c) ==> r.numEntries <= r.capacity
    ensures r.missCount == c.missCount && r.hitCount == c.hitCount && r.numEntries == c.numEntries
    ensures r.ttl == c.ttl && r.capacity == c.capacity
  {
    CacheState(c.missCount, c.hitCount, c.ttl, c.capacity, c.numEntries)
  }

  /** A node as the iterator sees it: nil, the sentinel, or a listed entry. */
  datatype Ref = Nil | Sentinel | At(id: Id)

  /**
    Iterator over the live ordering list. Like `SimpleCacheIt` it only
    remembers its current node; each step reads that node's successor from
    the cache as it is at that moment.
   */
  datatype CacheIt = CacheIt(curr: Ref)

  /** The current node is the sentinel or an entry still on the list of `c`. */
  ghost predicate ItValid<V>(c: Cache<V>, it: CacheIt) {
    match it.curr
    case Nil => false
    case Sentinel => true
    case At(id) => id in c.order
  }

  /** How many entries of `c` lie before the current node (all of them at the sentinel). */
  function Pos<V>(c: Cache<V>, it: CacheIt): (p: nat)
    requires ItValid(c, it)
    ensures p <= |c.order|
  {
    if it.curr.At? then IndexOf(c.order, it.curr.id) else |c.order|
  }

  /** The node `next` leads to from a listed entry. */
  function Successor<V>(c: Cache<V>, id: Id): (r: Ref)
    requires id in c.order
    ensures r.Sentinel? || (r.At? && r.id in c.order)
  {
    var i := IndexOf(c.order, id);
    if i + 1 < |c.order| then At(c.order[i + 1]) else Sentinel
  }

  /** A new iterator stands on `head.next`: the MRU entry, or the sentinel of an empty list. */
  function NewCacheIt<V>(c: Cache<V>): (it: CacheIt)
    ensures ItValid(c, it) && Pos(c, it) == 0
    ensures it == CacheIt(if |c.order| == 0 then Sentinel else At(c.order[0]))
  {
    if |c.order| == 0 then CacheIt(Sentinel) else CacheIt(At(c.order[0]))
  }

  /** There is a current entry exactly while the walk has not come back to the sentinel. */
  predicate HasCurr<V>(c: Cache<V>, it: CacheIt)
    requires ItValid(c, it)
    ensures HasCurr(c, it) <==> Pos(c, it) < |c.order|
  {
    it.curr != Sentinel
  }

  /** The current node: the entry at the walk's position, or the sentinel at its end. */
  function GetCurr<V>(c: Cache<V>, it: CacheIt): (r: Ref)
    requires ItValid(c, it)
    ensures HasCurr(c, it) ==> r == At(c.order[Pos(c, it)])
    ensures !HasCurr(c, it) ==> r == Sentinel
  {
    it.curr
  }

  /**
    Advance along the live list. From the sentinel the iterator stays put
    and nil comes back; otherwise it moves to the successor and returns it.
   */
  function Next<V>(c: Cache<V>, it: CacheIt): (r: (CacheIt, Ref))
    requires ItValid(c, it)
    ensures ItValid(c, r.0)
    ensures !HasCurr(c, it) ==> r == (it, Nil)
    ensures HasCurr(c, it) && NoDup(c.order) ==>
              && Pos(c, r.0) == Pos(c, it) + 1
              && r.1 == r.0.curr
              && (r.1 == Sentinel <==> Pos(c, it) + 1 == |c.order|)
  {
    if !HasCurr(c, it) then (it, Nil)
    else
      var n := Successor(c, it.curr.id);
      (CacheIt(n), n)
  }

  /** The entries a `for it := ...; it.HasCurr(); it.Next()` loop visits, in order. */
  function Walk<V>(c: Cache<V>, it: CacheIt): (r: seq<Id>)
    requires ItValid(c, it) && NoDup(c.order)
    ensures r == c.order[Pos(c, it)..]
    decreases |c.order| - Pos(c, it)
  {
    if !HasCurr(c, it) then []
    else [GetCurr(c, it).id] + Walk(c, Next(c, it).0)
  }

  /** The state Clean leaves behind, described as a whole. */
  function Cleaned<V>(c: Cache<V>): Cache<V> {
    c.(entries := map id | id in c.entries ::
                    if id in c.order then c.entries[id].(state := Available) else c.entries[id],
       numEntries := 0, hitCount := 0, missCount := 0)
  }

  /** The first `p` listed entries of `c` are marked available in `entries`; the rest are as in `c`. */
  ghost predicate MarkedUpTo<V>(c: Cache<V>, entries: map<Id, Entry<V>>, p: nat)
    requires p <= |c.order|
  {
    && entries.Keys == c.entries.Keys
    && forall id :: id in c.entries ==>
         entries[id] == if id in c.order[..p] then c.entries[id].(state := Available) else c.entries[id]
  }

  /** Marking the entry at position `p` extends the marked prefix by one. */
  lemma MarkStep<V>(c: Cache<V>, entries: map<Id, Entry<V>>, p: nat)
    requires NoDup(c.order) && p < |c.order| && MarkedUpTo(c, entries, p)
    ensures var id := c.order[p];
            MarkedUpTo(c, if id in entries then entries[id := entries[id].(state := Available)] else entries, p + 1)
  {
    assert c.order[..p + 1] == c.order[..p] + [c.order[p]];
  }

  /** Once the whole list is marked, only the counters are left to reset. */
  lemma MarkedAll<V>(c: Cache<V>, entries: map<Id, Entry<V>>)
    requires MarkedUpTo(c, entries, |c.order|)
    ensures c.(entries := entries, numEntries := 0, hitCount := 0, missCount := 0) == Cleaned(c)
  {
    assert c.order[..|c.order|] == c.order;
  }

  /**
    Clean walks the list with the iterator marking each entry available,
    then zeroes the counters. Neither the index nor the list is emptied.
   */
  method Clean<V>(c: Cache<V>) returns (r: Cache<V>)
    requires NoDup(c.order)
    ensures r == Cleaned(c)
  {
    var entries: map<Id, Entry<V>> := c.entries;
    var it := NewCacheIt(c);
    assert c.order[..0] == [];
    while HasCurr(c, it)
      invariant ItValid(c, it)
      invariant MarkedUpTo(c, entries, Pos(c, it))
      decreases |c.order| - Pos(c, it)
    {
      var cur := GetCurr(c, it);
      MarkStep(c, entries, Pos(c, it));
      if cur.id in entries {
        entries := entries[cur.id := entries[cur.id].(state := Available)];
      }
      it := Next(c, it).0;
    }
    MarkedAll(c, entries);
    r := c.(entries := entries, numEntries := 0, hitCount := 0, missCount := 0);
  }
}
