# simple_cache in Dafny

A model of the TTL + LRU cache engine of `simple_cache` (Go): a fixed-capacity
cache that maps string keys to values, keeps its entries on a doubly linked
MRU -> LRU list hung off a sentinel `head`, lets entries expire a fixed `ttl`
after they were last written or read, and refuses to admit a new key
("cache is full") rather than evict an LRU entry that is still busy and live.

The pointer structure is replaced by an arena. A `Cache<V>` holds
`entries: map<Id, Entry<V>>`, `order: seq<Id>` (the list, most recently used
first, the sentinel implicit), `table: map<string, Id>` (the index), the
counters `missCount`, `hitCount` and `numEntries`, and `capacity`, `ttl` and
the next fresh arena id. Each public operation is a pure function from a cache
state and the current time `now` (an integer) to the next state and its
result. Errors are values (`CacheError`), including the construction panic.

Files:

- `order_list.dfy` (module `OrderList`): the list as a sequence of ids;
  unlinking is `Remove`.
- `simple_cache.dfy` (module `SimpleCache`): the entity types, the invariant
  `Valid`, and every operation: `New`, `HasExpired`, `Mru`/`Lru`,
  `InsertAsMru`, `SelfDeleteFromLruList`, `BecomeMru`, `EvictLruEntry`,
  `AllocateEntry`, `InsertOrUpdate`, `Read`, `GetMRU`, the iterator
  (`NewCacheIt`, `HasCurr`, `GetCurr`, `Next`), `GetState` and `Clean` (a
  method walking the list with the iterator, proved equal to the whole-state
  description `Cleaned`).
- `cache_properties.dfy` (module `CacheProperties`): admission, eviction,
  update, read, sliding-expiry, MRU and Clean properties, and `Run`, which
  folds any sequence of operations and carries the invariant through it.

`Valid` is the invariant every operation keeps: `0 < capacity`,
`numEntries <= capacity`, `numEntries <= |order|`, no id listed twice, the
listed ids are exactly the arena's ids, and the index agrees with the list in
both directions (each listed entry is indexed under its own `key`, and every
indexed key leads to a listed entry carrying that key).

## Behaviour of the code worth knowing

Each point below is what the functions in `simple_cache.go` do, read
against that file's own comments; the model does the same.

- Updating a key that is already indexed does not move it to the MRU end.
  The comment on `InsertOrUpdate` (lines 184-185) only promises that the
  value is updated. Lines 199-211 write the value and times in place, with no
  `becomeMru`. Only allocation (line 176) links at the head, and only a
  successful `Read` (line 242) moves an entry (`UpdateKeepsPosition`).
- Expiry is strict. `hasExpired` (lines 102-104) is `expirationTime.Before(now)`,
  so an entry is still live at the very instant of its expiry time
  (`WrittenEntryExpiry`).
- Eviction is allowed whenever the LRU entry is marked available, whatever
  its expiry time. The condition at line 155 refuses only a busy, unexpired
  LRU entry.
- A refused insert is not free of side effects. Line 201 counts a miss
  before the allocation at line 202 can fail.
- `Clean`'s comment (line 336) says "all the entries are deleted and
  counters reset". The helper `clean` (lines 321-334) zeroes the counters and
  marks the listed entries available, but removes nothing from `table` or
  the list. As a result:
  - keys that were live before `Clean` still read successfully afterwards
    (`CleanKeepsKeysReadable`);
  - `GetMRU` reports an empty cache although the list is not empty
    (`CleanedGetMRUIsEmpty`);
  - after `Clean` the entry counter is zero, so the first `capacity`
    inserts of new keys each take a fresh entry and lengthen the list
    (`CleanThenInsertGrowsList`); only then does the counter reach
    `capacity` again (line 166) and inserts go back to evicting. Rounds of
    `Clean` and an insert therefore grow the list past `capacity` without
    bound (`CleanInsertRounds`, `CleanLetsListOutgrowCapacity`).

  "Entry count == index size == list length" therefore only holds until the
  first `Clean` (`Run`).
- The comment on `New` (line 71) gives the range of `capFactor` as
  `(0.1, 3]`, and the panic message at line 81 as `[0.1, 3]`. The comparison at
  line 80 accepts 0.1 itself, and the model follows line 80.
- The iterator keeps only its current node and reads `curr.next` at each
  step (line 287), so it follows the list as it is at that moment. An entry
  ahead of the iterator that a read moves to the front is skipped by the
  rest of the walk (`ReadDuringWalk`). Reading the entry the iterator stands
  on moves it to the front with the iterator on it, so the walk goes round
  the entries already visited again (`ReadCurrentRestartsWalk`). The same
  happens when an insert evicts the entry the iterator stands on: the
  allocation relinks that entry at the head in the same call (lines 158
  and 176), so the rest of the walk is the whole list again
  (`EvictCurrentRestartsWalk`). No operation leaves the iterator on an
  unlinked entry (`ItStaysValid`).
- `InsertOrUpdate` returns only an error, not the stored value.

## Model

| member | source | states |
|---|---|---|
| `OrderList.Remove` | simple_cache.go:142-145 | unlinking a node leaves every other node listed, in its relative order; without repeated nodes the list shrinks by exactly one and stays repetition-free |
| `OrderList.RemoveLast` | simple_cache.go:153-158 | unlinking the LRU node of a repetition-free list removes exactly its last position |
| `OrderList.RemoveFront` | simple_cache.go:147-150 | unlinking a node just spliced after the sentinel gives back the list it was spliced onto |
| `SimpleCache.New` | simple_cache.go:77-99 | construction fails exactly when `capFactor` is outside [0.1, 3.0]; otherwise the list and index are empty, all counters are zero, and the invariant holds |
| `SimpleCache.Mru` | simple_cache.go:106-113 | nothing exactly when the list is empty; otherwise the node a new iterator starts on (`head.next`, line 272), and in a repetition-free list unlinking it leaves exactly the rest of the list |
| `SimpleCache.Lru` | simple_cache.go:115-122 | nothing exactly when the list is empty; otherwise the node whose unlinking, in a repetition-free list, drops exactly the last position, which is what eviction (line 154) unlinks |
| `SimpleCache.InsertAsMru` | simple_cache.go:134-139 | the entry becomes the new head and unlinking it gives back the old list; a repetition-free list stays so; nothing but the list changes |
| `SimpleCache.SelfDeleteFromLruList` | simple_cache.go:142-145 | the entry leaves the list, every other entry stays listed, a repetition-free list shrinks by exactly one, and nothing but the list changes |
| `SimpleCache.BecomeMru` | simple_cache.go:147-150 | the entry ends at the head, the others keep their relative order, no node is duplicated or lost, and nothing but the list changes |
| `SimpleCache.EvictLruEntry` | simple_cache.go:152-162 | refuses with "cache is full" exactly when the LRU entry is busy and unexpired; otherwise drops exactly the tail from the list, its key from the index, and marks it available |
| `SimpleCache.AllocateEntry` | simple_cache.go:164-182 | fails exactly when the cache is at capacity and its LRU entry is pinned; otherwise the chosen entry is the LRU tail at capacity and a fresh arena entry below it; it becomes the new head, indexed under the key, given that key and marked busy; no other entry changes, and `numEntries` grows only when below capacity |
| `SimpleCache.AllocateEntryValid` | simple_cache.go:164-182 | whichever entry allocation chooses, the state after it satisfies the invariant |
| `SimpleCache.EvictKeepsIndex` | simple_cache.go:152-162 | after an eviction every indexed key still leads to an arena entry carrying that key, never the evicted one, and every other entry is still indexed under its own key |
| `SimpleCache.LinkAtHead` | simple_cache.go:176-179 | linking splices the list exactly as `InsertAsMru` does, making the entry the head with the old list behind it, indexes it under the key, gives it that key and marks it busy; no other entry and nothing else changes |
| `SimpleCache.LinkValid` | simple_cache.go:176-179 | linking a chosen entry at the head, setting its key and state and indexing it re-establishes the invariant |
| `SimpleCache.SetValue` | simple_cache.go:208-211 | writing a value touches only that entry's value and times, never its key, state, list position or the index |
| `SimpleCache.WrittenEntryExpiry` | simple_cache.go:102-104 | an entry written at `now` (expiry `now + ttl`, line 211) is not expired at any instant up to and including `now + ttl` and is expired at every later one |
| `SimpleCache.SetValueValid` | simple_cache.go:208-211 | writing a value into an entry keeps the invariant |
| `SimpleCache.BecomeMruValid` | simple_cache.go:147-150 | moving a listed entry to the head keeps the invariant |
| `SimpleCache.InsertNewKey` | simple_cache.go:199-211 | for a key not indexed yet: keeps the invariant; either refuses with "cache is full" after counting one miss and changing nothing else, or indexes the key to an entry holding exactly the key, the value, `now`, `now + ttl` and busy, and counts a hit |
| `SimpleCache.InsertNewKeyKeepsOthers` | simple_cache.go:164-211 | an admitted new key is indexed to the LRU tail at capacity and to a fresh id below it, and no other arena entry changes |
| `SimpleCache.InsertNewKeyAtHead` | simple_cache.go:176 | an admitted new key's entry is the head of the list, and the entry counter is then non-zero |
| `SimpleCache.InsertOrUpdateKey` | simple_cache.go:199-212 | keeps the invariant; a success counts a hit and leaves the key indexed to an entry holding the new value, stamped `now` and expiring at `now + ttl`: an existing entry keeps its key and state, a new one is busy; the only failure is "cache is full", which changes nothing but one more miss |
| `SimpleCache.InsertOrUpdate` | simple_cache.go:187-192 | a failing key stringification returns its error and leaves the cache unchanged; otherwise the locked insert runs on the string key |
| `SimpleCache.ReadKey` | simple_cache.go:229-244 | three outcomes: absent key counts a miss and changes nothing else; expired key counts a miss and returns the stale value with an error, without refresh or move; live key counts a hit, expires at `now + ttl` and moves to the head with the others' relative order kept |
| `SimpleCache.Read` | simple_cache.go:217-222 | a failing key stringification returns no value and its error, and leaves the cache unchanged |
| `SimpleCache.GetMRU` | simple_cache.go:248-263 | "empty cache" exactly when `numEntries == 0`; otherwise the head's key and value, with an error exactly when the head is expired or available |
| `SimpleCache.NewCacheIt` | simple_cache.go:271-273 | a new iterator stands on `head.next`: the MRU entry, or the sentinel when the list is empty |
| `SimpleCache.Next` | simple_cache.go:283-289 | at the sentinel the iterator stays put and nil comes back; otherwise it moves one place along the current list and returns the node it moved to, which is the sentinel exactly when it left the last entry |
| `SimpleCache.HasCurr` | simple_cache.go:275-277 | there is a current entry exactly while the iterator has not reached the sentinel, i.e. while entries remain ahead of it |
| `SimpleCache.GetCurr` | simple_cache.go:279-281 | the current node is the listed entry at the iterator's position, or the sentinel at the end |
| `SimpleCache.Walk` | simple_cache.go:275-289 | a `HasCurr`/`Next` loop visits exactly the remaining list entries, MRU to LRU, and stops at the sentinel |
| `SimpleCache.GetState` | simple_cache.go:300-311 | the snapshot carries the cache's miss and hit counts, ttl, capacity and entry count, and under the invariant the entry count never exceeds the capacity |
| `SimpleCache.Clean` | simple_cache.go:321-334 | walking the list with the iterator marks every listed entry available and leaves exactly the state `Cleaned` describes: counters zero, index and list untouched |
| `CacheProperties.ListIsTableValues` | simple_cache.go:176-179 | the listed entries are exactly the indexed ones, each indexed under its own key |
| `CacheProperties.InsertRejectedIffPinned` | simple_cache.go:199-205 | an insert is refused iff the key is new, the cache is at capacity and the LRU entry is busy and live; a refusal only adds one miss |
| `CacheProperties.EvictionReplacesLru` | simple_cache.go:153-179 | a new key admitted at capacity reuses exactly the tail entry as the new head, its old key leaves the index, the others keep their relative order, `numEntries` is unchanged, and one miss and one hit are counted |
| `CacheProperties.EvictionRefillsLru` | simple_cache.go:153-211 | the reused tail entry then holds exactly the new key, the value, `now`, `now + ttl` and busy |
| `CacheProperties.EvictionKeepsOthers` | simple_cache.go:153-211 | admitting a new key at capacity changes no entry other than the evicted tail |
| `CacheProperties.InsertWithRoom` | simple_cache.go:171-179 | below capacity a new key gets a fresh arena entry (one not in the arena yet) linked at the head and indexed under the key, `numEntries` grows by one, and one miss and one hit are counted |
| `CacheProperties.InsertWithRoomFills` | simple_cache.go:199-211 | below capacity the arena gains exactly the fresh entry, which holds the key, the value, the time and `now + ttl` and is busy, and no other entry changes |
| `CacheProperties.UpdateKeepsPosition` | simple_cache.go:199-212 | updating an indexed key succeeds, rewrites only that entry's value and times, counts only a hit, and leaves list, index and `numEntries` unchanged |
| `CacheProperties.NewKeyBecomesMru` | simple_cache.go:176 | an admitted new key becomes the head, and with a non-negative ttl GetMRU at that instant reports it without error |
| `CacheProperties.SlidingExpiration` | simple_cache.go:235-241 | after a successful read at `t1` a second read succeeds at any `t2` up to `t1 + ttl`, even past the old expiry |
| `CacheProperties.ReadKeyBecomesMru` | simple_cache.go:240-242 | a live, busy entry that is read is what GetMRU then reports, provided the entry counter is non-zero |
| `CacheProperties.RetryAfterExpiry` | simple_cache.go:153-161 | an insert refused at `t1` is admitted at any `t2` after the LRU entry's expiry, evicting exactly that entry |
| `CacheProperties.CleanResetsAccounting` | simple_cache.go:321-334 | after Clean the counters are zero, every entry is available, index, list and configuration are unchanged, and the invariant holds |
| `CacheProperties.CleanKeepsKeysReadable` | simple_cache.go:321-334 | a key live before Clean still reads successfully after it, with its old value |
| `CacheProperties.CleanedGetMRUIsEmpty` | simple_cache.go:253-255 | after Clean GetMRU answers "empty cache" whatever the list still holds |
| `CacheProperties.CleanLetsListOutgrowCapacity` | simple_cache.go:166-174 | with capacity 1, an insert, Clean and a second insert leave two listed and indexed entries |
| `CacheProperties.CleanThenInsertGrowsList` | simple_cache.go:164-179 | for any valid state and new key, the first insert right after Clean is admitted as a fresh entry whatever the capacity: the list grows by one and the index gains exactly that key |
| `CacheProperties.CleanInsert` | simple_cache.go:164-179 | an insert of a new key after Clean keeps the invariant and the capacity, lengthens the list by one, and indexes exactly the old keys and the new one |
| `CacheProperties.CleanInsertRounds` | simple_cache.go:321-334 | rounds of Clean and an insert of a new key keep the invariant, grow the list by one per round, index exactly the old keys and the new ones, and with more rounds than `capacity` leave the list longer than the capacity |
| `CacheProperties.IterationVisitsList` | simple_cache.go:271-289 | iterating from a new iterator visits exactly the list, MRU to LRU |
| `CacheProperties.ReadDuringWalk` | simple_cache.go:283-289 | a successful read during a walk that moves a not-yet-visited entry to the front leaves the iterator valid, and the rest of the walk is the old rest without that entry |
| `CacheProperties.ReadCurrentRestartsWalk` | simple_cache.go:283-289 | a successful read of the entry the iterator stands on moves it, and the iterator, to the head: the rest of the walk is then the whole list, so the entries already visited come round again |
| `CacheProperties.EvictCurrentRestartsWalk` | simple_cache.go:164-182 | an insert that evicts the entry the iterator stands on relinks it at the head with the iterator on it: the rest of the walk is the whole new list, as long as the old one |
| `CacheProperties.InsertKeepsListed` | simple_cache.go:164-211 | an insert, admitted or refused, leaves every listed entry listed |
| `CacheProperties.ReadKeepsListed` | simple_cache.go:229-244 | a read, hit or miss, leaves every listed entry listed |
| `CacheProperties.ItStaysValid` | simple_cache.go:283-289 | after any insert, read, peek or Clean the node an iterator stands on is still on the list, so `Next` keeps following the live list |
| `CacheProperties.MoveAheadOfWalk` | simple_cache.go:283-289 | moving an entry that lies ahead of the iterator to the front of the list, keeping the others' order, leaves the iterator valid and removes just that entry from the rest of the walk |
| `CacheProperties.Run` | simple_cache.go:164-174 | after any sequence of inserts, reads, peeks and cleans, the invariant holds and `numEntries <= capacity`; with no Clean in the sequence, `numEntries` stays equal to the list length |

## Left out

- The mutex: each public operation is one atomic transition, so
  `sync.Mutex` locking and unlocking is not modelled.
- The clock: `time.Now()` becomes the integer parameter `now`, durations are
  integers. The insert path reads the clock twice (once before taking the
  lock, once inside the eviction check); the model uses one `now` for both.
  Go's saturating `time.Add` is not modelled (integers are unbounded).
- Counter width: `missCount`, `hitCount` and `numEntries` are unbounded
  naturals; 64-bit wrap-around is not modelled.
- `extendedCapacity` and `ExtendedCapacity`: computed with a floating-point
  `math.Ceil` and used only as a map-size hint, with no observable effect.
- `GetState`: only the field snapshot (`GetState` returning a `CacheState`)
  is modelled; the JSON marshalling is a foreign call.
- `toMapKey`: not stored in the cache; `InsertOrUpdate` and `Read` take it as
  a total function parameter whose result is either a string key or a
  failure.
- `isEmpty`: unused by the rest of the code, and not modelled.
- The field accessors (`MissCount`, `HitCount`, `Ttl`, `Capacity`,
  `NumEntries`): they are the record's fields.
- `GetCurr` returns the current node as a `Ref` (a listed arena id, the
  sentinel, or nil) rather than an entry pointer. `Walk` stands for the
  caller's loop over the iterator.
- `Next`: the iterator takes no lock, so a step that runs while another
  goroutine is inside an operation can see a half-spliced list. With every
  operation atomic that case does not arise; between operations no entry
  is ever left unlinked (`ItStaysValid`).
- `New`: `capFactor` is a real number. A NaN passes Go's check at line 80,
  since both comparisons are false, and is not represented. Neither are
  the other IEEE 754 special values.
- `New` requires `capacity > 0`. Go does not check a non-positive
  `capacity`, and with 0 the eviction path would touch the sentinel.
- The value-compression variant of the constructor used by the tests is not
  part of this model, and neither is the test file's timing.
