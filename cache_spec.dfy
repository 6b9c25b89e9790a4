/**
 * The abstract meaning of the cache: a recency order over the live keys (most
 * recently used first) and the items stored under them, with the intrusive
 * links erased. Each public operation of the cache is a function here, and the
 * promises the cache makes are lemmas about those functions.
 */
module CacheSpec {
  import opened Wrappers
  import opened KeyOrder
  import opened Entries

  /** Most expired entries one amortized sweep may remove. */
  const MAX_CLEANUP_PER_CYCLE: nat := 10

  /** An item with its recency links erased; the order carries them. */
  function Detached<K, V>(item: CachedItem<K, V>): CachedItem<K, V>
  {
    item.(metadata := item.metadata.Relinked(None, None))
  }

  /** Metadata with neither recency link set. */
  predicate Unlinked<K>(e: CacheEntry<K>)
  {
    e.lruPrev.None? && e.lruNext.None?
  }

  datatype CacheView<K, V> = CacheView(order: seq<K>, items: map<K, CachedItem<K, V>>)
  {
    /**
     * Every stored key appears exactly once in the order and nothing else
     * does; every item knows its own key and carries no links.
     */
    ghost predicate Wf()
    {
      && NoDup(order)
      && (forall k | k in order :: k in items)
      && (forall k | k in items :: k in order)
      && (forall k | k in items :: Unlinked(items[k].metadata) && items[k].metadata.keyPtr == Some(k))
    }
  }

  /** The keys whose entries are expired at `now`. */
  function ExpiredKeys<K, V>(v: CacheView<K, V>, now: nat): set<K>
  {
    set k | k in v.items && v.items[k].metadata.IsExpired(now)
  }

  /** Present and not expired at `now`. */
  predicate IsLive<K, V>(v: CacheView<K, V>, key: K, now: nat)
  {
    key in v.items && !v.items[key].metadata.IsExpired(now)
  }

  /** Erase the keys `gone`; the survivors keep their relative order. */
  function Drop<K, V>(v: CacheView<K, V>, gone: set<K>): CacheView<K, V>
  {
    CacheView(Keep(v.order, v.items.Keys - gone), v.items - gone)
  }

  /** Unlink and erase one key (nothing, if it is absent). */
  function Unlink<K, V>(v: CacheView<K, V>, key: K): CacheView<K, V>
  {
    CacheView(Without(v.order, key), v.items - {key})
  }

  /** Unlink and erase the least recently used key, if there is one. */
  function EvictTail<K, V>(v: CacheView<K, V>): CacheView<K, V>
  {
    if v.order == [] then v else Unlink(v, v.order[|v.order| - 1])
  }

  /** A hit: restart the key's sliding window and make it most recently used. */
  function Touch<K, V>(v: CacheView<K, V>, key: K, now: nat): CacheView<K, V>
    requires key in v.items
  {
    var item := v.items[key];
    CacheView([key] + Without(v.order, key),
              v.items[key := item.(metadata := item.metadata.UpdateAccess(now))])
  }

  /** The item a miss stores: the factory's value with fresh, possibly overridden, metadata. */
  function NewItem<K, V>(options: LruCacheOptions, key: K, factory: V,
                         configure: Option<EntryOverride>, now: nat): (item: CachedItem<K, V>)
    ensures Unlinked(item.metadata) && item.metadata.keyPtr == Some(key)
    ensures item.value == factory && item.metadata.lastAccessed == now
  {
    var initial := NewEntry(options.slidingExpiration, now);
    var configured := if configure.Some? then Configure(initial, configure.value) else initial;
    CachedItem(factory, configured.(keyPtr := Some(key)))
  }

  /** Store `item` under a key the view does not hold, as its most recently used entry. */
  function Insert<K, V>(v: CacheView<K, V>, key: K, item: CachedItem<K, V>): CacheView<K, V>
  {
    CacheView([key] + v.order, v.items[key := item])
  }

  /** Capacity eviction: one tail eviction when a bounded cache is already full. */
  function MakeRoom<K, V>(options: LruCacheOptions, v: CacheView<K, V>): CacheView<K, V>
  {
    if options.IsBounded() && |v.items| >= options.sizeLimit then EvictTail(v) else v
  }

  /**
   * Storing `item` under `key` on a miss: any stale entry for `key` is erased,
   * room is made, and the item becomes the most recently used entry.
   */
  function Admit<K, V>(options: LruCacheOptions, v: CacheView<K, V>, key: K, item: CachedItem<K, V>): CacheView<K, V>
  {
    Insert(MakeRoom(options, Unlink(v, key)), key, item)
  }

  /**
   * `getOrCreate` after its amortized sweep: a live key is touched and its
   * stored value returned; otherwise any stale entry is erased, room is made,
   * and the factory's value is stored as the most recently used entry.
   */
  function GetOrCreateSpec<K, V>(options: LruCacheOptions, v: CacheView<K, V>, key: K, factory: V,
                                 configure: Option<EntryOverride>, now: nat): (CacheView<K, V>, V)
  {
    if IsLive(v, key, now) then
      (Touch(v, key, now), v.items[key].value)
    else
      (Admit(options, v, key, NewItem(options, key, factory, configure, now)), factory)
  }

  /** `tryGet` after its amortized sweep: a live key is touched, an expired one erased. */
  function TryGetSpec<K, V>(v: CacheView<K, V>, key: K, now: nat): (CacheView<K, V>, Option<V>)
  {
    if IsLive(v, key, now) then (Touch(v, key, now), Some(v.items[key].value))
    else (Unlink(v, key), None)
  }

  /** `remove`: erase the key and report whether it was there. */
  function RemoveSpec<K, V>(v: CacheView<K, V>, key: K): (CacheView<K, V>, bool)
  {
    (Unlink(v, key), key in v.items)
  }

  /** `cleanupExpired`: erase every entry expired at `now`. */
  function CleanupSpec<K, V>(v: CacheView<K, V>, now: nat): CacheView<K, V>
  {
    Drop(v, ExpiredKeys(v, now))
  }

  /** The empty cache. */
  function Empty<K, V>(): CacheView<K, V>
  {
    CacheView([], map[])
  }

  /** Whether an amortized sweep is due: enabled, and at least one interval since the last. */
  predicate CleanupDue(options: LruCacheOptions, lastCleanupTime: nat, now: nat)
  {
    options.CleanupEnabled() && now - lastCleanupTime >= options.backgroundCleanupInterval
  }

  /**
   * The keys an amortized sweep may remove. Which expired keys go depends on
   * hash-table iteration order and is left open: any expired keys, at most
   * `MAX_CLEANUP_PER_CYCLE` of them, and all of them if fewer than the cap are
   * expired. Nothing, when no sweep is due.
   */
  ghost predicate SweepAllowed<K, V>(v: CacheView<K, V>, swept: set<K>, due: bool, now: nat)
  {
    if !due then swept == {}
    else
      && swept <= ExpiredKeys(v, now)
      && |swept| <= MAX_CLEANUP_PER_CYCLE
      && (|swept| < MAX_CLEANUP_PER_CYCLE ==> ExpiredKeys(v, now) <= swept)
  }

  //---------------------------------------------------------------------------
  // Well-formedness and size
  //---------------------------------------------------------------------------

  /** A well-formed view has as many positions in its order as stored items. */
  lemma SizeIsOrderLength<K, V>(v: CacheView<K, V>)
    requires v.Wf()
    ensures |v.items| == |v.order|
  {
    assert forall x :: x in v.order <==> x in v.items.Keys;
    DistinctCount(v.order, v.items.Keys);
  }

  /** Erasing keys keeps a view well formed. */
  lemma DropWf<K, V>(v: CacheView<K, V>, gone: set<K>)
    requires v.Wf()
    ensures Drop(v, gone).Wf()
  {
    KeepMembers(v.order, v.items.Keys - gone);
  }

  /** Unlinking one key keeps a view well formed and erases only that key. */
  lemma UnlinkKeeps<K, V>(v: CacheView<K, V>, key: K)
    requires v.Wf()
    ensures var u := Unlink(v, key);
      && u.Wf()
      && u.items == v.items - {key}
      && u.items.Keys == v.items.Keys - {key}
      && |u.items| == (if key in v.items then |v.items| - 1 else |v.items|)
  {
    UnlinkWf(v, key);
    var u := Unlink(v, key);
    assert u.items.Keys == v.items.Keys - {key};
    if key !in v.items {
      assert v.items - {key} == v.items;
    }
  }

  /** Unlinking one key keeps a view well formed. */
  lemma UnlinkWf<K, V>(v: CacheView<K, V>, key: K)
    requires v.Wf()
    ensures Unlink(v, key).Wf()
  {
    WithoutMembers(v.order, key);
  }

  /** Unlinking one key leaves the other keys in their relative order. */
  lemma UnlinkOrder<K, V>(v: CacheView<K, V>, key: K)
    requires v.Wf()
    ensures Unlink(v, key).order == Keep(v.order, v.items.Keys - {key})
  {
    WithoutIsKeep(v.order, v.items.Keys, key);
  }

  /** An absent key unlinks to the same view. */
  lemma UnlinkAbsent<K, V>(v: CacheView<K, V>, key: K)
    requires v.Wf() && key !in v.items
    ensures Unlink(v, key) == v
  {
    WithoutAbsent(v.order, key);
    assert v.items - {key} == v.items;
  }

  /** Moving a stored key to the head, with its window restarted, keeps a view well formed. */
  lemma TouchWf<K, V>(v: CacheView<K, V>, key: K, now: nat)
    requires v.Wf() && key in v.items
    ensures Touch(v, key, now).Wf()
  {
    WithoutMembers(v.order, key);
    assert ([key] + Without(v.order, key))[1..] == Without(v.order, key);
  }

  /** Inserting a detached item under a new key keeps a view well formed. */
  lemma InsertWf<K, V>(v: CacheView<K, V>, key: K, item: CachedItem<K, V>)
    requires v.Wf() && key !in v.items
    requires Unlinked(item.metadata) && item.metadata.keyPtr == Some(key)
    ensures Insert(v, key, item).Wf()
  {
    assert ([key] + v.order)[1..] == v.order;
  }

  /**
   * Making room keeps a view well formed and erases nothing unless a bounded
   * cache is full, and then exactly its least recently used key; the rest
   * keep their items.
   */
  lemma MakeRoomKeeps<K, V>(options: LruCacheOptions, v: CacheView<K, V>)
    requires v.Wf()
    ensures var room := MakeRoom(options, v);
      && room.Wf()
      && (forall k | k in room.items :: k in v.items && room.items[k] == v.items[k])
      && (if options.IsBounded() && |v.items| >= options.sizeLimit
          then v.order != [] && room.items.Keys == v.items.Keys - {v.order[|v.order| - 1]}
               && |room.items| == |v.items| - 1
          else room.items.Keys == v.items.Keys)
  {
    if options.IsBounded() && |v.items| >= options.sizeLimit {
      SizeIsOrderLength(v);
      UnlinkKeeps(v, v.order[|v.order| - 1]);
      assert MakeRoom(options, v) == Unlink(v, v.order[|v.order| - 1]);
    } else {
      assert MakeRoom(options, v) == v;
    }
  }

  /** Making room leaves the surviving keys in their relative order. */
  lemma MakeRoomOrder<K, V>(options: LruCacheOptions, v: CacheView<K, V>)
    requires v.Wf()
    ensures MakeRoom(options, v).order == Keep(v.order, MakeRoom(options, v).items.Keys)
  {
    if options.IsBounded() && |v.items| >= options.sizeLimit {
      SizeIsOrderLength(v);
      UnlinkOrder(v, v.order[|v.order| - 1]);
    } else {
      KeepAll(v.order, v.items.Keys);
    }
  }

  //---------------------------------------------------------------------------
  // Admitting a new entry
  //---------------------------------------------------------------------------

  /** Admitting a detached item that points back to its key keeps a view well formed. */
  lemma AdmitWf<K, V>(options: LruCacheOptions, v: CacheView<K, V>, key: K, item: CachedItem<K, V>)
    requires v.Wf() && Unlinked(item.metadata) && item.metadata.keyPtr == Some(key)
    ensures Admit(options, v, key, item).Wf()
  {
    var f := Unlink(v, key);
    UnlinkKeeps(v, key);
    MakeRoomKeeps(options, f);
    InsertWf(MakeRoom(options, f), key, item);
  }

  /**
   * An admitted item is stored under its key at the head; every other key that
   * remains was stored before, with the same item.
   */
  lemma AdmitKeepsOthers<K, V>(options: LruCacheOptions, v: CacheView<K, V>, key: K, item: CachedItem<K, V>)
    requires v.Wf()
    ensures var w := Admit(options, v, key, item);
      && w.order != [] && w.order[0] == key
      && key in w.items && w.items[key] == item
      && (forall k | k in w.items && k != key :: k in v.items && w.items[k] == v.items[k])
  {
    var f := Unlink(v, key);
    UnlinkKeeps(v, key);
    MakeRoomKeeps(options, f);
  }

  /** The keys that survive an admission keep their relative order behind the new head. */
  lemma AdmitOrder<K, V>(options: LruCacheOptions, v: CacheView<K, V>, key: K, item: CachedItem<K, V>)
    requires v.Wf()
    ensures var w := Admit(options, v, key, item);
      w.order[1..] == Keep(v.order, w.items.Keys - {key})
  {
    var room := MakeRoom(options, Unlink(v, key));
    RoomOrder(options, v, key);
    var w := Insert(room, key, item);
    assert w.items.Keys - {key} == room.items.Keys;
    assert w.order[1..] == room.order;
  }

  /** Before the new item goes in, the kept keys are in their old relative order and `key` is gone. */
  lemma RoomOrder<K, V>(options: LruCacheOptions, v: CacheView<K, V>, key: K)
    requires v.Wf()
    ensures var room := MakeRoom(options, Unlink(v, key));
      && key !in room.items
      && room.order == Keep(v.order, room.items.Keys)
  {
    var f := Unlink(v, key);
    var rest := v.items.Keys - {key};
    var room := MakeRoom(options, f);
    assert f.Wf() && f.items.Keys == rest by { UnlinkKeeps(v, key); }
    assert f.order == Keep(v.order, rest) by { UnlinkOrder(v, key); }
    assert room.order == Keep(f.order, room.items.Keys) by { MakeRoomOrder(options, f); }
    assert room.items.Keys <= rest by { MakeRoomKeeps(options, f); }
    KeepTwice(v.order, rest, room.items.Keys);
  }

  /** Under a positive limit, admitting into a cache within the limit keeps it within the limit. */
  lemma AdmitWithinLimit<K, V>(options: LruCacheOptions, v: CacheView<K, V>, key: K, item: CachedItem<K, V>)
    requires v.Wf() && options.IsBounded() && |v.items| <= options.sizeLimit
    ensures |Admit(options, v, key, item).items| <= options.sizeLimit
  {
    var f := Unlink(v, key);
    UnlinkKeeps(v, key);
    MakeRoomKeeps(options, f);
    var room := MakeRoom(options, f);
    assert key !in room.items;
    assert |room.items[key := item]| == |room.items| + 1;
  }

  /**
   * Capacity eviction happens when the cache, stale entry erased, is full; it
   * removes exactly its least recently used key, which is never the key being
   * admitted.
   */
  lemma AdmitEvictsTail<K, V>(options: LruCacheOptions, v: CacheView<K, V>, key: K, item: CachedItem<K, V>)
    requires v.Wf() && options.IsBounded() && |Unlink(v, key).items| >= options.sizeLimit
    ensures var f := Unlink(v, key);
      && f.order != []
      && f.order[|f.order| - 1] != key
      && Admit(options, v, key, item).items.Keys == f.items.Keys - {f.order[|f.order| - 1]} + {key}
  {
    var f := Unlink(v, key);
    EvictRoomKeys(options, v, key);
    assert Admit(options, v, key, item).items == MakeRoom(options, f).items[key := item];
  }

  /** A full bounded view, `key` unlinked, makes room by dropping exactly its least recently used key. */
  lemma EvictRoomKeys<K, V>(options: LruCacheOptions, v: CacheView<K, V>, key: K)
    requires v.Wf() && options.IsBounded() && |Unlink(v, key).items| >= options.sizeLimit
    ensures var f := Unlink(v, key);
      && f.order != [] && f.order[|f.order| - 1] != key
      && MakeRoom(options, f).items.Keys == f.items.Keys - {f.order[|f.order| - 1]}
  {
    var f := Unlink(v, key);
    UnlinkTail(v, key);
    assert (f.items - {f.order[|f.order| - 1]}).Keys == f.items.Keys - {f.order[|f.order| - 1]};
  }

  /** A non-empty view with `key` unlinked has a least recently used key, and it is not `key`. */
  lemma UnlinkTail<K, V>(v: CacheView<K, V>, key: K)
    requires v.Wf() && |Unlink(v, key).items| > 0
    ensures var f := Unlink(v, key);
      f.order != [] && f.order[|f.order| - 1] in f.items && f.order[|f.order| - 1] != key
  {
    var f := Unlink(v, key);
    UnlinkKeeps(v, key);
    SizeIsOrderLength(f);
    assert f.order[|f.order| - 1] in f.order;
  }

  /** Below the limit, or with no limit, admission evicts nothing: the keys gain `key` only. */
  lemma AdmitBelowLimit<K, V>(options: LruCacheOptions, v: CacheView<K, V>, key: K, item: CachedItem<K, V>)
    requires v.Wf()
    requires !options.IsBounded() || |Unlink(v, key).items| < options.sizeLimit
    ensures Admit(options, v, key, item).items.Keys == v.items.Keys + {key}
  {
    UnlinkKeeps(v, key);
    MakeRoomKeeps(options, Unlink(v, key));
  }

  /**
   * Least-recently-used eviction: a key just touched is the head, so admitting
   * another key never evicts it unless the limit is a single entry.
   */
  lemma TouchedSurvivesAdmit<K, V>(options: LruCacheOptions, v: CacheView<K, V>, key: K, now: nat,
                                   other: K, item: CachedItem<K, V>)
    requires v.Wf() && key in v.items && other != key && options.sizeLimit != 1
    ensures key in Admit(options, Touch(v, key, now), other, item).items
  {
    var t := Touch(v, key, now);
    TouchWf(v, key, now);
    var f := Unlink(t, other);
    assert f.order == [key] + Without(Without(v.order, key), other);
    UnlinkKeeps(t, other);
    MakeRoomKeeps(options, f);
    if options.IsBounded() && |f.items| >= options.sizeLimit {
      SizeIsOrderLength(f);
      NoDupDistinct(f.order, 0, |f.order| - 1);
    }
  }

  /** Admitting a key that is not stored into a cache with room is a plain insertion at the head. */
  lemma AdmitFresh<K, V>(options: LruCacheOptions, v: CacheView<K, V>, key: K, item: CachedItem<K, V>)
    requires key !in v.items && key !in v.order
    requires !options.IsBounded() || |v.items| < options.sizeLimit
    ensures Admit(options, v, key, item) == Insert(v, key, item)
  {
    WithoutAbsent(v.order, key);
    assert v.items - {key} == v.items;
  }

  /** Admitting a key that is not stored into a full bounded cache first evicts its tail. */
  lemma AdmitFull<K, V>(options: LruCacheOptions, v: CacheView<K, V>, key: K, item: CachedItem<K, V>)
    requires key !in v.items && key !in v.order
    requires options.IsBounded() && |v.items| >= options.sizeLimit
    ensures Admit(options, v, key, item) == Insert(EvictTail(v), key, item)
  {
    WithoutAbsent(v.order, key);
    assert v.items - {key} == v.items;
  }

  //---------------------------------------------------------------------------
  // getOrCreate
  //---------------------------------------------------------------------------

  /** `getOrCreate` keeps the view well formed. */
  lemma GetOrCreateWf<K, V>(options: LruCacheOptions, v: CacheView<K, V>, key: K, factory: V,
                            configure: Option<EntryOverride>, now: nat)
    requires v.Wf()
    ensures GetOrCreateSpec(options, v, key, factory, configure, now).0.Wf()
  {
    if IsLive(v, key, now) {
      TouchWf(v, key, now);
    } else {
      AdmitWf(options, v, key, NewItem(options, key, factory, configure, now));
    }
  }

  /**
   * A hit: the factory is not used, the stored value is returned unchanged,
   * its window restarts at `now`, it becomes the head, and the other keys
   * keep their items and their relative order.
   */
  lemma GetOrCreateHit<K, V>(options: LruCacheOptions, v: CacheView<K, V>, key: K, factory: V,
                             otherFactory: V, configure: Option<EntryOverride>, now: nat)
    requires v.Wf() && IsLive(v, key, now)
    ensures GetOrCreateSpec(options, v, key, factory, configure, now).1 == v.items[key].value
    ensures GetOrCreateSpec(options, v, key, otherFactory, configure, now)
         == GetOrCreateSpec(options, v, key, factory, configure, now)
    ensures var w := GetOrCreateSpec(options, v, key, factory, configure, now).0;
      && w.items.Keys == v.items.Keys
      && w.items[key].value == v.items[key].value
      && w.items[key].metadata == v.items[key].metadata.(lastAccessed := now)
      && (forall k | k in w.items && k != key :: w.items[k] == v.items[k])
      && w.order == [key] + Keep(v.order, v.items.Keys - {key})
  {
    WithoutIsKeep(v.order, v.items.Keys, key);
  }

  /**
   * A miss (absent or expired) admits a new item and returns the factory's
   * value; the item holds that value, its own key, the default or overriding
   * expiration, cost 1 unless overridden, and a window starting at `now`.
   */
  lemma GetOrCreateMiss<K, V>(options: LruCacheOptions, v: CacheView<K, V>, key: K, factory: V,
                              configure: Option<EntryOverride>, now: nat)
    requires !IsLive(v, key, now)
    ensures var (w, r) := GetOrCreateSpec(options, v, key, factory, configure, now);
      && r == factory
      && w == Admit(options, v, key, NewItem(options, key, factory, configure, now))
    ensures var item := NewItem(options, key, factory, configure, now);
      && item.value == factory
      && item.metadata.lastAccessed == now
      && item.metadata.keyPtr == Some(key)
      && item.metadata.slidingExpiration
           == (if configure.Some? then configure.value.slidingExpiration.GetOr(options.slidingExpiration)
               else options.slidingExpiration)
      && item.metadata.size == (if configure.Some? then configure.value.size.GetOr(1) else 1)
  {
  }

  /** Under a positive limit, `getOrCreate` never takes the cache above it. */
  lemma GetOrCreateWithinLimit<K, V>(options: LruCacheOptions, v: CacheView<K, V>, key: K, factory: V,
                                     configure: Option<EntryOverride>, now: nat)
    requires v.Wf() && options.IsBounded() && |v.items| <= options.sizeLimit
    ensures |GetOrCreateSpec(options, v, key, factory, configure, now).0.items| <= options.sizeLimit
  {
    if IsLive(v, key, now) {
      assert Touch(v, key, now).items.Keys == v.items.Keys;
    } else {
      AdmitWithinLimit(options, v, key, NewItem(options, key, factory, configure, now));
    }
  }

  //---------------------------------------------------------------------------
  // tryGet, remove, cleanupExpired, the amortized sweep
  //---------------------------------------------------------------------------

  /**
   * `tryGet` returns a value exactly when the key is live, and then the stored
   * one; an expired key is erased with nothing else changed; an absent key
   * changes nothing.
   */
  lemma TryGetResult<K, V>(v: CacheView<K, V>, key: K, now: nat)
    requires v.Wf()
    ensures var (w, r) := TryGetSpec(v, key, now);
      && (r.Some? <==> IsLive(v, key, now))
      && (r.Some? ==> r.value == v.items[key].value && w == Touch(v, key, now) && w.order[0] == key)
      && (key in v.items && r.None? ==> w == Drop(v, {key}) && key !in w.items)
      && (key !in v.items ==> w == v)
      && w.Wf()
  {
    if IsLive(v, key, now) {
      TouchWf(v, key, now);
    } else if key in v.items {
      UnlinkKeeps(v, key);
      UnlinkOrder(v, key);
    } else {
      UnlinkAbsent(v, key);
    }
  }

  /**
   * `remove` reports whether the key was stored; it erases only that key and
   * the other keys keep their items and relative order.
   */
  lemma RemoveResult<K, V>(v: CacheView<K, V>, key: K)
    requires v.Wf()
    ensures var (w, r) := RemoveSpec(v, key);
      && (r <==> key in v.items)
      && w.items == v.items - {key}
      && w.order == Keep(v.order, w.items.Keys)
      && (!r ==> w == v)
      && w.Wf()
  {
    UnlinkKeeps(v, key);
    UnlinkOrder(v, key);
    if key !in v.items {
      UnlinkAbsent(v, key);
    }
  }

  /** Removing a key twice: the second call reports false and changes nothing. */
  lemma RemoveTwice<K, V>(v: CacheView<K, V>, key: K)
    requires v.Wf()
    ensures var w := RemoveSpec(v, key).0;
      RemoveSpec(w, key) == (w, false)
  {
    UnlinkKeeps(v, key);
    UnlinkAbsent(Unlink(v, key), key);
  }

  /**
   * `cleanupExpired` leaves no entry expired at `now`, and every entry live
   * at `now` survives with its item, the survivors in their relative order.
   */
  lemma CleanupLeavesNoExpired<K, V>(v: CacheView<K, V>, now: nat)
    requires v.Wf()
    ensures var w := CleanupSpec(v, now);
      && ExpiredKeys(w, now) == {}
      && (forall k | IsLive(v, k, now) :: k in w.items && w.items[k] == v.items[k])
      && w.items.Keys <= v.items.Keys
      && w.order == Keep(v.order, w.items.Keys)
      && w.Wf()
  {
    DropWf(v, ExpiredKeys(v, now));
  }

  /**
   * A permitted sweep keeps the view well formed, erases at most
   * MAX_CLEANUP_PER_CYCLE entries, all of them expired, and keeps every live
   * entry as it was.
   */
  lemma SweepKeepsLive<K, V>(v: CacheView<K, V>, swept: set<K>, due: bool, now: nat)
    requires v.Wf() && SweepAllowed(v, swept, due, now)
    ensures var w := Drop(v, swept);
      && w.Wf()
      && (forall k | k in v.items && k !in w.items :: v.items[k].metadata.IsExpired(now))
      && (forall k | IsLive(v, k, now) :: k in w.items && w.items[k] == v.items[k])
  {
    DropWf(v, swept);
  }

  /** A sweep erases at most MAX_CLEANUP_PER_CYCLE entries. */
  lemma SweepBounded<K, V>(v: CacheView<K, V>, swept: set<K>, due: bool, now: nat)
    requires v.Wf() && SweepAllowed(v, swept, due, now)
    ensures |v.items| - |Drop(v, swept).items| <= MAX_CLEANUP_PER_CYCLE
  {
    EraseCount(v.items, swept);
  }

  /** A sweep that is not due changes nothing. */
  lemma SweepNotDue<K, V>(v: CacheView<K, V>, swept: set<K>, now: nat)
    requires v.Wf() && SweepAllowed(v, swept, false, now)
    ensures Drop(v, swept) == v
  {
    KeepAll(v.order, v.items.Keys);
    assert v.items - {} == v.items;
  }

  /**
   * With the interval zero or negative no sweep is ever due, so `getOrCreate`
   * and `tryGet` erase nothing but the expired key they look up.
   */
  lemma SweepDisabled<K, V>(options: LruCacheOptions, v: CacheView<K, V>, swept: set<K>,
                            lastCleanupTime: nat, now: nat)
    requires v.Wf() && !options.CleanupEnabled()
    requires SweepAllowed(v, swept, CleanupDue(options, lastCleanupTime, now), now)
    ensures swept == {} && Drop(v, swept) == v
  {
    SweepNotDue(v, swept, now);
  }

  /** Erasing one more key after a batch is erasing the batch and that key. */
  lemma DropOneMore<K, V>(v: CacheView<K, V>, gone: set<K>, key: K)
    ensures Unlink(Drop(v, gone), key) == Drop(v, gone + {key})
  {
    KeepLess(v.order, v.items.Keys - gone, key);
    assert v.items.Keys - gone - {key} == v.items.Keys - (gone + {key});
    assert v.items - gone - {key} == v.items - (gone + {key});
  }
}
