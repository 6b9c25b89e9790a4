# nfx LruCache — a verified Dafny model

This project models the cache engine of `nfx::memory::LruCache<TKey, TValue>`. It is a
key/value cache with these parts:

- a bounded entry count;
- sliding per-entry expiration;
- least-recently-used (LRU) eviction.

The cache has four pieces of state:

- **Index.** A hash map from each key to a `CachedItem`, which holds the value and its
  `CacheEntry` metadata.
- **Recency list.** An intrusive doubly linked list threaded through the
  `lruPrev`/`lruNext` fields of each entry's metadata. `m_lruHead` is the most recently
  used entry and `m_lruTail` the least recently used.
- **Back-reference.** Each entry holds a `keyPtr` to its own key, so an eviction that
  starts from the tail node can find which map key to erase.
- **Sweep clock.** The time of the last amortized sweep. Every `getOrCreate` and `tryGet`
  starts by checking it. Once the configured interval has passed, the call erases up to
  ten expired entries.

The model has these modules:

- `Wrappers` (`wrappers.dfy`): `Option`.
- `KeyOrder` (`key_order.dfy`): sequences of distinct keys, most recently used first.
  - `Without` takes one key out.
  - `Keep` keeps a subset of keys.
  - Neither reorders the keys that remain.
- `Entries` (`entries.dfy`):
  - `LruCacheOptions` and its defaults.
  - `CacheEntry`, with `IsExpired` and `UpdateAccess`.
  - `EntryOverride`, the caller's per-entry configuration.
  - `CachedItem`.
- `CacheSpec` (`cache_spec.dfy`): the meaning of a cache.
  - A `CacheView` is a recency order plus the stored items with their links erased.
  - Each public operation has one function on views.
  - The promises of the cache are lemmas about those functions.
- `LruList` (`lru_list.dfy`): the intrusive list.
  - `Threaded(s, m, head, tail)` relates a key sequence to the link fields stored in
    the map.
  - `AddAtHead` proves that the head insertion keeps the list threaded.
  - `RemoveAt` proves the same for unlinking from any position.
- `Memory` (`lru_cache.dfy`): the class `LruCache`, written imperatively.
  - Fields: `cache` (a `map`), `lruHead`, `lruTail`, `lastCleanupTime` and the ghost
    `order`.
  - The list operations rewrite the link fields in the C++'s order. An entry's own two
    links are set together in one step.
  - The sweeps are `while` loops over the not-yet-visited keys, with a `cleanedCount`
    counter.
  - Every public method ensures `View() == <operation function>(old(View()), …)` and
    keeps `Valid()`.
  - `Valid()` requires three things:
    - the links thread the map's entries along `order`;
    - every entry points back to its key;
    - `|cache| <= sizeLimit` when the limit is positive.
- `CacheScenarios` (`scenarios.dfy`): short runs stated over any distinct keys.
  - With a limit of two, keys A, B, C leave B and C.
  - A hit on A before C arrives makes B the one evicted.
  - A hit restarts the sliding window.

Pointers are modelled by keys:

- a link `CacheEntry*` is an `Option<K>` naming the key of the entry it points at;
- `keyPtr` is `Some(k)` once the entry is stored.

Time is an explicit instant `now: nat` in milliseconds, passed to each operation.
Durations are signed milliseconds, because the clock's duration type is signed and the
code treats a zero or negative interval as disabled (`count() <= 0`). The factory is
the value it would produce. `configure` is an optional `EntryOverride` that may replace
the new entry's sliding expiration and its size.

Some behaviour of the code is easy to mistake, and the model follows it as written:

- **Capacity eviction.** It happens once, before the new entry is inserted, and only
  when `sizeLimit > 0 && size >= sizeLimit` (`LruCache.inl:163-166`). There is no loop
  after the insert. The limit is still kept (`AdmitWithinLimit`).
- **Sweep order.** The amortized sweep walks the hash map in iteration order
  (`LruCache.inl:388-389`), not from the recency tail. The model leaves open which
  expired keys a sweep removes (`SweepAllowed`).
- **Sweep trigger.** The sweep starts when the elapsed time is `>=` the interval
  (`LruCache.inl:377`).
- **Entry size.** `CacheEntry::size` is stored but never used: capacity counts entries
  (`LruCache.inl:163`).
- **Order inside `getOrCreate`.** A due sweep, with its reset of the sweep clock, and
  the erasure of an expired entry for the key both run before `factory()`
  (`LruCache.inl:135`, `:379`, `:149-151`, `:155`). A failing factory therefore need
  not leave the cache unchanged.

## Model

| member | source | states |
|---|---|---|
| Entries.DefaultOptions | include/nfx/memory/LruCache.h:59-62 | The defaults are: no size limit, amortized cleanup disabled, one hour of sliding expiration. |
| Entries.NewEntry | include/nfx/memory/LruCache.h:122-131 | Fresh metadata has cost 1, no previous or next link and no key back-reference. Its window starts at `now`, and with a non-negative expiration it is not expired at its creation instant. |
| Entries.Configure | include/nfx/detail/memory/LruCache.inl:156-161 | An override replaces the sliding expiration and the size, each only when it supplies one, and changes nothing else. |
| Entries.ZeroExpiration | include/nfx/detail/memory/LruCache.inl:89-93 | The expiry test is strict. An entry with expiration 0 is live at the instant of its last access and expired at every later instant. |
| CacheSpec.NewItem | include/nfx/detail/memory/LruCache.inl:155-169 | The item a miss stores holds the factory's value. Its window starts at `now`, its back-reference names its own key, and it has no list links. |
| CacheSpec.SizeIsOrderLength | include/nfx/memory/LruCache.h:319-323 | In a well-formed cache the recency list has exactly as many nodes as the map has entries. |
| CacheSpec.DropWf | include/nfx/detail/memory/LruCache.inl:260-272 | Erasing any set of keys from map and list keeps map keys and list members in one-to-one correspondence. |
| CacheSpec.UnlinkKeeps | include/nfx/detail/memory/LruCache.inl:215-223 | Unlinking and erasing one key keeps the cache well formed and erases that key only. The count drops by one exactly when the key was stored. |
| CacheSpec.UnlinkWf | include/nfx/detail/memory/LruCache.inl:308-331 | Taking one key out of the list and map keeps the list duplicate-free and in step with the map. |
| CacheSpec.UnlinkOrder | include/nfx/detail/memory/LruCache.inl:308-331 | After one key is unlinked, the remaining keys keep their relative recency order. |
| CacheSpec.UnlinkAbsent | include/nfx/detail/memory/LruCache.inl:215-223 | Erasing a key that is not stored changes nothing. |
| CacheSpec.TouchWf | include/nfx/detail/memory/LruCache.inl:140-143 | Restarting a stored entry's window and moving it to the head keeps the cache well formed. |
| CacheSpec.InsertWf | include/nfx/detail/memory/LruCache.inl:168-170 | Storing an unlinked item under a new key, with its back-reference set and linked at the head, keeps the cache well formed. |
| CacheSpec.MakeRoomKeeps | include/nfx/detail/memory/LruCache.inl:163-166 | Making room erases nothing unless the cache is bounded and full. Then it erases exactly the least recently used key, so the count drops by one. Every survivor keeps its item. |
| CacheSpec.MakeRoomOrder | include/nfx/detail/memory/LruCache.inl:345-359 | After an eviction the survivors keep their relative recency order. |
| CacheSpec.AdmitWf | include/nfx/detail/memory/LruCache.inl:147-172 | The miss path keeps the cache well formed. That path is: erase any stale entry, evict if full, insert at the head. |
| CacheSpec.AdmitKeepsOthers | include/nfx/detail/memory/LruCache.inl:168-172 | After the miss path, the new key is the head and holds the new item. Every other remaining key was stored before and holds the same item. |
| CacheSpec.AdmitOrder | include/nfx/detail/memory/LruCache.inl:163-170 | Behind the new head, the keys that remain keep their previous relative order. |
| CacheSpec.AdmitWithinLimit | include/nfx/detail/memory/LruCache.inl:163-170 | If a positive size limit holds before the miss path, it holds after. |
| CacheSpec.AdmitEvictsTail | include/nfx/detail/memory/LruCache.inl:163-166 | When a bounded cache is full once any stale entry is erased, the miss path removes exactly its tail key. That key is never the key being inserted. The keys become the old ones minus the tail plus the new key. |
| CacheSpec.AdmitBelowLimit | include/nfx/memory/LruCache.h:55 | Below the limit, or with limit 0 (unlimited), the miss path evicts nothing: the keys only gain the new key. |
| CacheSpec.AdmitFresh | include/nfx/detail/memory/LruCache.inl:163-170 | Adding a key that is not stored, when the cache has room, is a plain insertion at the head. |
| CacheSpec.AdmitFull | include/nfx/detail/memory/LruCache.inl:163-170 | Adding a key that is not stored to a full bounded cache first evicts the tail, then inserts at the head. |
| CacheSpec.TouchedSurvivesAdmit | include/nfx/detail/memory/LruCache.inl:345-359 | A key that was just hit is not evicted by the next insertion of another key, unless the limit is a single entry. |
| CacheSpec.GetOrCreateWf | include/nfx/detail/memory/LruCache.inl:129-173 | `getOrCreate` keeps the cache well formed. |
| CacheSpec.GetOrCreateHit | include/nfx/detail/memory/LruCache.inl:137-146 | On a live key the factory is unused: any factory gives the same result. The stored value is returned and stays unchanged. `lastAccessed` becomes `now` and the key becomes the head. Other entries are untouched and keep their relative order. |
| CacheSpec.GetOrCreateMiss | include/nfx/detail/memory/LruCache.inl:147-172 | On an absent or expired key, the call returns the factory's value and takes the miss path. The new entry's expiration is the default unless the override gives one, and its size is 1 unless the override gives one. Its window starts at `now`, and its back-reference is its key. |
| CacheSpec.GetOrCreateWithinLimit | include/nfx/detail/memory/LruCache.inl:163-170 | Under a positive limit, a cache within the limit stays within it. |
| CacheSpec.TryGetResult | include/nfx/detail/memory/LruCache.inl:187-203 | A value is returned exactly when the key is present and not expired. It is the stored value, and the key becomes the head. An expired key is erased and nothing else changes. An absent key changes nothing. |
| CacheSpec.RemoveResult | include/nfx/detail/memory/LruCache.inl:215-223 | The result is true exactly when the key was stored. Only that key is erased, and the rest keep their relative order. On false nothing changes. |
| CacheSpec.RemoveTwice | include/nfx/memory/LruCache.h:247-252 | A second `remove` of the same key returns false and changes nothing. |
| CacheSpec.CleanupLeavesNoExpired | include/nfx/detail/memory/LruCache.inl:260-272 | After `cleanupExpired` no entry is expired at `now`. Every live entry survives with its item, and the survivors keep their order. |
| CacheSpec.SweepKeepsLive | include/nfx/detail/memory/LruCache.inl:386-401 | An amortized sweep keeps the cache well formed and removes only expired entries. Every live entry is kept unchanged. |
| CacheSpec.SweepBounded | include/nfx/memory/LruCache.h:285-290 | One amortized sweep removes at most `MAX_CLEANUP_PER_CYCLE` = 10 entries. |
| CacheSpec.SweepNotDue | include/nfx/detail/memory/LruCache.inl:368-377 | When the sweep is disabled or its interval has not elapsed, it changes nothing. |
| CacheSpec.SweepDisabled | include/nfx/detail/memory/LruCache.inl:368-372 | With a zero or negative interval no sweep ever runs. `getOrCreate` and `tryGet` then erase only the expired key they look up. |
| CacheSpec.DropOneMore | include/nfx/detail/memory/LruCache.inl:388-401 | Erasing one more key after a batch equals erasing the batch plus that key. Each loop step of a sweep therefore extends the set of swept keys. |
| LruList.AddAtHead | include/nfx/detail/memory/LruCache.inl:290-306 | Linking an entry in front of the head threads the list along `[key] + order`, with head and tail updated. Only link fields change. |
| LruList.RemoveAt | include/nfx/detail/memory/LruCache.inl:308-331 | Unlinking the entry at any position threads the list along the order without that key. Head and tail are repaired, the entry's own links are cleared, and nothing but links changes. |
| Memory.LruCache.constructor | include/nfx/detail/memory/LruCache.inl:112-123 | A new cache is empty, with null head and tail and the sweep clock at `now`. |
| Memory.LruCache.AddToLruHead | include/nfx/detail/memory/LruCache.inl:290-306 | The link writes prepend the key to the recency list and change no stored item. |
| Memory.LruCache.RemoveFromLru | include/nfx/detail/memory/LruCache.inl:308-331 | The link writes delete one key from the list, with the rest in order. The entry stays in the map with both links null. |
| Memory.LruCache.MoveToLruHead | include/nfx/detail/memory/LruCache.inl:333-343 | The key moves to the front, with the rest in order. On the current head nothing at all changes. |
| Memory.LruCache.Erase | include/nfx/detail/memory/LruCache.inl:149-151 | Unlinking and then erasing an entry removes exactly that key from the map and the list. The count drops by one. |
| Memory.LruCache.EvictLeastRecentlyUsed | include/nfx/detail/memory/LruCache.inl:345-359 | The tail's key, found through its back-reference, is unlinked and erased. An empty list evicts nothing. |
| Memory.LruCache.CheckAndPerformBackgroundCleanup | include/nfx/detail/memory/LruCache.inl:365-403 | The sweep runs only when the interval is positive and at least one interval has passed. It then sets the sweep clock to `now` and erases a set of expired keys: at most 10, and all of them if fewer than 10 are expired. The invariant is kept. |
| Memory.LruCache.TouchEntry | include/nfx/detail/memory/LruCache.inl:140-145 | The hit path restarts the entry's window, makes it the head, and leaves its value unchanged. |
| Memory.LruCache.StoreNew | include/nfx/detail/memory/LruCache.inl:163-170 | The miss path evicts the tail if a bounded cache is full, then stores the entry with its back-reference set at the head. The invariant, capacity included, is kept. |
| Memory.LruCache.GetOrCreate | include/nfx/detail/memory/LruCache.inl:129-173 | After a permitted sweep, the new state and the returned value are those of the `getOrCreate` function on views. The invariant and the size limit are kept. |
| Memory.LruCache.TryGet | include/nfx/detail/memory/LruCache.inl:179-204 | After a permitted sweep, the new state and the optional result are those of the `tryGet` function on views. |
| Memory.LruCache.Remove | include/nfx/detail/memory/LruCache.inl:210-224 | The new state and the boolean are those of the `remove` function on views. No sweep runs. |
| Memory.LruCache.Clear | include/nfx/detail/memory/LruCache.inl:226-233 | The map is empty and head and tail are null. The sweep clock is not reset. |
| Memory.LruCache.Size | include/nfx/detail/memory/LruCache.inl:235-241 | The entry count, expired entries included, equals the length of the recency list. |
| Memory.LruCache.IsEmpty | include/nfx/detail/memory/LruCache.inl:247-253 | True exactly when the map has no entries, which is exactly when the recency list is empty. |
| Memory.LruCache.CleanupExpired | include/nfx/detail/memory/LruCache.inl:255-273 | The loop erases exactly the entries expired at `now`, and the survivors keep their order. |
| CacheScenarios.SlidingReset | include/nfx/detail/memory/LruCache.inl:89-102 | After a hit at `now`, the entry is live at a later instant exactly when no more than its sliding expiration has passed since `now`. |
| CacheScenarios.CapacityTwo | include/nfx/detail/memory/LruCache.inl:163-170 | With a limit of two, inserting three distinct keys in turn leaves the last two, newest first. |
| CacheScenarios.HitProtectsFromEviction | include/nfx/detail/memory/LruCache.inl:345-359 | With a limit of two, insert A then B, hit A while it is live, then insert C: B is the key evicted. |

## Left out

- **Locking.** `std::mutex` and `std::lock_guard` are not modelled. Each public call is one atomic sequential method.
- **The clock.** `std::chrono::steady_clock` becomes an explicit `now` per call. The C++ reads the clock again in the sweep, in `isExpired`, in `updateAccess` and in the new entry's constructor; the model uses one instant for the whole call. Instants are whole milliseconds, while the C++ compares `steady_clock` differences at the clock's own resolution, usually nanoseconds (`LruCache.inl:92`, `:377`), so expiry and sweep decisions that turn on less than a millisecond are not represented.
- **Integer overflow.** Instants and durations are unbounded integers. 64-bit overflow of `size_t` and of the clock representation is not modelled.
- **Callbacks.** `factory` is the value it produces. Its exceptions are not modelled, and neither is the state a throwing factory would leave behind.
- **`configure`.** It is an `EntryOverride` that can set the expiration and the size. A real callback could also rewrite `lastAccessed` or the link fields, and that is not modelled.
- **References and memory.** The returned references and how long they stay valid, the `const_cast` of the sweep and `m_cache.reserve` are left out. These are C++ memory details with no effect on the cache's contents.
- **The sweep under `const`.** The source declares `checkAndPerformBackgroundCleanup` `const` and mutates through `mutable` state. The model declares plainly what it modifies.
- **Hash-map iteration order.** The sweeps pick the next key with `:|`. `CheckAndPerformBackgroundCleanup` therefore states which sets of keys are allowed (`SweepAllowed`), not which exact keys the C++ removes.
- **Unreachable eviction branch.** In `evictLeastRecentlyUsed`, the branch for a tail with a null `keyPtr` cannot happen under the model's invariant, so the model asserts it away.
- **Trivial accessors.** The `LruCacheOptions` accessors are the datatype's fields. The `CachedItem` constructor is the datatype's constructor.
- **Deleted members.** The copy and move members are deleted in the source and have no counterpart.
- **Benchmark.** The benchmark harness `benchmark/BM_LruCache.cpp` is not part of this model.
