/**
 * The cache object itself: a hash map from keys to items, threaded by an
 * intrusive doubly linked recency list whose links live in each entry's
 * metadata. A link is modelled by the key of the entry it points at, so
 * `lruHead`, `lruTail` and every `lruPrev`/`lruNext` are `Option<K>`; the
 * ghost `order` is the list read from head to tail.
 *
 * Every public operation is proved against its function in `CacheSpec` on the
 * abstract view `View()`, and the recency-list operations are proved to keep
 * the links threaded along `order`.
 */
module Memory {
  import opened Wrappers
  import opened KeyOrder
  import opened Entries
  import opened CacheSpec
  import opened LruList

  class LruCache<K(==), V> {
    const options: LruCacheOptions
    var cache: map<K, CachedItem<K, V>>
    var lruHead: Option<K>
    var lruTail: Option<K>
    var lastCleanupTime: nat
    /** The recency list from most to least recently used. */
    ghost var order: seq<K>

    /** The links thread the stored entries along `order`. */
    ghost predicate Linked()
      reads this
    {
      Threaded(order, cache, lruHead, lruTail)
    }

    /** Every stored entry is on the list and points back to its own key. */
    ghost predicate Indexed()
      reads this
    {
      forall k | k in Items() :: k in order && Items()[k].metadata.keyPtr == Some(k)
    }

    /** The stored items with their links erased. */
    ghost function Items(): map<K, CachedItem<K, V>>
      reads this
    {
      DetachAll(cache)
    }

    /** What the cache means: its recency order and its items. */
    ghost function View(): CacheView<K, V>
      reads this
    {
      CacheView(order, Items())
    }

    /** The invariant every public operation keeps, capacity included. */
    ghost predicate Valid()
      reads this
    {
      && Linked()
      && Indexed()
      && (options.IsBounded() ==> |cache| <= options.sizeLimit)
    }

    /** A valid cache means a well-formed view. */
    lemma ValidWf()
      requires Valid()
      ensures View().Wf()
    {
    }

    /** An empty cache whose sweep clock starts at `now`. */
    constructor(options: LruCacheOptions, now: nat)
      ensures Valid()
      ensures this.options == options && lastCleanupTime == now
      ensures View() == Empty()
    {
      this.options := options;
      cache := map[];
      lruHead := None;
      lruTail := None;
      lastCleanupTime := now;
      order := [];
    }

    //-------------------------------------------------------------------------
    // Recency list management
    //-------------------------------------------------------------------------

    /** Link a stored, unlisted entry in front of the head. */
    method AddToLruHead(key: K)
      requires Linked() && key in cache && key !in order
      modifies this
      ensures Linked()
      ensures order == [key] + old(order)
      ensures Items() == old(Items()) && cache.Keys == old(cache.Keys)
      ensures lastCleanupTime == old(lastCleanupTime)
    {
      ghost var m0 := cache;
      cache := SetLinks(cache, key, None, lruHead);
      if lruHead.Some? {
        cache := SetPrev(cache, lruHead.value, Some(key));
      } else {
        lruTail := Some(key);
      }
      AddAtHead(order, m0, lruHead, old(lruTail), key, cache, lruTail);
      lruHead := Some(key);
      order := [key] + order;
    }

    /** Unlink a listed entry, joining its neighbours; its own links are cleared. */
    method RemoveFromLru(key: K)
      requires Linked() && key in order
      modifies this
      ensures Linked()
      ensures order == Without(old(order), key)
      ensures Items() == old(Items()) && cache.Keys == old(cache.Keys)
      ensures key in cache && Unlinked(cache[key].metadata)
      ensures lastCleanupTime == old(lastCleanupTime)
    {
      ghost var i :| 0 <= i < |order| && order[i] == key;
      ghost var m0 := cache;
      var entry := cache[key].metadata;
      assert LinksAt(order, cache, i);
      if entry.lruPrev.Some? {
        cache := SetNext(cache, entry.lruPrev.value, entry.lruNext);
      } else {
        lruHead := entry.lruNext;
      }
      if entry.lruNext.Some? {
        cache := SetPrev(cache, entry.lruNext.value, entry.lruPrev);
      } else {
        lruTail := entry.lruPrev;
      }
      cache := SetLinks(cache, key, None, None);
      RemoveAt(order, m0, old(lruHead), old(lruTail), i, cache, lruHead, lruTail);
      order := Without(order, key);
    }

    /** Make a listed entry the head; nothing moves when it already is. */
    method MoveToLruHead(key: K)
      requires Linked() && key in order
      modifies this
      ensures Linked()
      ensures order == [key] + Without(old(order), key)
      ensures Items() == old(Items()) && cache.Keys == old(cache.Keys)
      ensures old(lruHead) == Some(key) ==> unchanged(this)
      ensures lastCleanupTime == old(lastCleanupTime)
    {
      if lruHead == Some(key) {
        WithoutAt(order, 0);
        assert [key] + order[1..] == order;
        return;
      }
      RemoveFromLru(key);
      WithoutMembers(old(order), key);
      AddToLruHead(key);
    }

    /** Unlink an entry and erase it from the map, as every removal path does. */
    method Erase(key: K)
      requires Linked() && Indexed() && key in cache
      modifies this
      ensures Linked() && Indexed()
      ensures View() == Unlink(old(View()), key)
      ensures cache.Keys == old(cache.Keys) - {key} && |cache| == |old(cache)| - 1
      ensures lastCleanupTime == old(lastCleanupTime)
    {
      RemoveFromLru(key);
      WithoutMembers(old(order), key);
      ThreadedErase(order, cache, lruHead, lruTail, key);
      DetachErase(cache, key);
      cache := cache - {key};
    }

    /**
     * Capacity eviction: unlink and erase the tail's entry, found through its
     * key back-pointer; an empty list evicts nothing.
     */
    method EvictLeastRecentlyUsed()
      requires Linked() && Indexed()
      modifies this
      ensures Linked() && Indexed()
      ensures View() == EvictTail(old(View()))
      ensures |cache| == if old(order) == [] then |old(cache)| else |old(cache)| - 1
      ensures lastCleanupTime == old(lastCleanupTime)
    {
      if lruTail.None? {
        return;
      }
      var keyPtr := cache[lruTail.value].metadata.keyPtr;
      if keyPtr.Some? {
        Erase(keyPtr.value);
      } else {
        assert false;
      }
    }

    //-------------------------------------------------------------------------
    // Amortized sweep
    //-------------------------------------------------------------------------

    /**
     * When enabled and at least one interval has passed since the last sweep,
     * restart the interval and erase expired entries in table order, stopping
     * after `MAX_CLEANUP_PER_CYCLE` of them. `swept` is the set it erased.
     */
    method CheckAndPerformBackgroundCleanup(now: nat) returns (ghost swept: set<K>)
      requires Valid()
      modifies this
      ensures Valid()
      ensures SweepAllowed(old(View()), swept, CleanupDue(options, old(lastCleanupTime), now), now)
      ensures View() == Drop(old(View()), swept)
      ensures lastCleanupTime == if CleanupDue(options, old(lastCleanupTime), now) then now else old(lastCleanupTime)
    {
      swept := {};
      ghost var v0 := View();
      assert Drop(v0, swept) == v0 by {
        ValidWf();
        SweepNotDue(v0, swept, now);
      }
      if options.backgroundCleanupInterval <= 0 {
        return;
      }
      if now - lastCleanupTime >= options.backgroundCleanupInterval {
        lastCleanupTime := now;
        var cleanedCount := 0;
        var pending := cache.Keys;
        ghost var expired := ExpiredKeys(v0, now);
        DetachKeys(cache);
        while pending != {} && cleanedCount < MAX_CLEANUP_PER_CYCLE
          invariant Valid() && lastCleanupTime == now
          invariant pending <= cache.Keys && swept !! pending
          invariant swept <= expired
          invariant forall k | k in expired && k !in pending :: k in swept
          invariant cleanedCount <= MAX_CLEANUP_PER_CYCLE && cleanedCount == |swept|
          invariant View() == Drop(v0, swept)
          decreases pending
        {
          var key :| key in pending;
          pending := pending - {key};
          assert cache[key].metadata.IsExpired(now) <==> key in expired by {
            assert key in Items() && Items()[key] == Detached(cache[key]);
          }
          if cache[key].metadata.IsExpired(now) {
            Erase(key);
            DropOneMore(v0, swept, key);
            assert |swept + {key}| == |swept| + 1 by {
              AddFresh(swept, key);
            }
            swept := swept + {key};
            cleanedCount := cleanedCount + 1;
          }
        }
      }
    }

    //-------------------------------------------------------------------------
    // Cache operations
    //-------------------------------------------------------------------------

    /** A hit: restart the entry's sliding window and make it most recently used. */
    method TouchEntry(key: K, now: nat)
      requires Valid() && key in cache
      modifies this
      ensures Valid()
      ensures key in old(View()).items && View() == Touch(old(View()), key, now)
      ensures cache[key].value == old(cache[key].value)
      ensures lastCleanupTime == old(lastCleanupTime)
    {
      ghost var v0 := View();
      assert v0.Wf() by {
        ValidWf();
      }
      var item := cache[key];
      var touched := item.(metadata := item.metadata.UpdateAccess(now));
      ghost var m0 := cache;
      cache := cache[key := touched];
      ThreadedStore(order, m0, lruHead, lruTail, key, touched, cache);
      DetachStore(m0, key, touched);
      MoveToLruHead(key);
      assert View() == Touch(v0, key, now);
      assert Valid() by {
        TouchWf(v0, key, now);
      }
    }

    /**
     * A miss on an absent key: evict the least recently used entry if a
     * bounded cache is full, store the new entry, point it at its key and
     * link it at the head.
     */
    method StoreNew(key: K, value: V, metadata: CacheEntry<K>)
      requires Valid() && key !in cache && Unlinked(metadata)
      modifies this
      ensures Valid()
      ensures View() == Insert(MakeRoom(options, old(View())), key, CachedItem(value, metadata.(keyPtr := Some(key))))
      ensures lastCleanupTime == old(lastCleanupTime)
    {
      ghost var v0 := View();
      assert v0.Wf() && |cache| == |v0.items| by {
        ValidWf();
        DetachKeys(cache);
      }
      if options.sizeLimit > 0 && |cache| >= options.sizeLimit {
        EvictLeastRecentlyUsed();
      }
      ghost var room := View();
      assert room == MakeRoom(options, v0);
      var item := CachedItem(value, metadata.(keyPtr := Some(key)));
      assert key !in order && room.Wf() && (options.IsBounded() ==> |room.items| < options.sizeLimit) by {
        MakeRoomKeeps(options, v0);
      }
      ghost var m0 := cache;
      cache := cache[key := item];
      ThreadedStore(order, m0, lruHead, lruTail, key, item, cache);
      DetachStore(m0, key, item);
      AddToLruHead(key);
      assert View() == Insert(room, key, item);
      assert Valid() by {
        InsertWf(room, key, item);
        DetachKeys(cache);
      }
    }

    /**
     * After the amortized sweep, return the stored value of a live entry,
     * restarting its window and making it most recently used; otherwise erase
     * any expired entry, build new metadata (default expiration, then the
     * caller's override), evict the least recently used entry if the cache is
     * full, and store the factory's value as the most recently used entry.
     */
    method GetOrCreate(key: K, factory: V, configure: Option<EntryOverride>, now: nat)
      returns (value: V, ghost swept: set<K>)
      requires Valid()
      modifies this
      ensures Valid()
      ensures SweepAllowed(old(View()), swept, CleanupDue(options, old(lastCleanupTime), now), now)
      ensures (View(), value) == GetOrCreateSpec(options, Drop(old(View()), swept), key, factory, configure, now)
      ensures lastCleanupTime == if CleanupDue(options, old(lastCleanupTime), now) then now else old(lastCleanupTime)
    {
      swept := CheckAndPerformBackgroundCleanup(now);
      ghost var v1 := View();
      assert IsLive(v1, key, now) <==> key in cache && !cache[key].metadata.IsExpired(now) by {
        DetachKeys(cache);
      }
      if key in cache {
        if !cache[key].metadata.IsExpired(now) {
          TouchEntry(key, now);
          value := cache[key].value;
          return;
        }
        Erase(key);
      } else {
        assert Unlink(v1, key) == v1 by {
          ValidWf();
          DetachKeys(cache);
          UnlinkAbsent(v1, key);
        }
      }
      var metadata := NewEntry(options.slidingExpiration, now);
      if configure.Some? {
        metadata := Configure(metadata, configure.value);
      }
      StoreNew(key, factory, metadata);
      value := factory;
    }

    //-------------------------------------------------------------------------
    // Lookup and modification
    //-------------------------------------------------------------------------

    /**
     * After the amortized sweep, return the value of a live entry, restarting
     * its window and making it most recently used; an expired entry is erased
     * and nothing is returned.
     */
    method TryGet(key: K, now: nat) returns (r: Option<V>, ghost swept: set<K>)
      requires Valid()
      modifies this
      ensures Valid()
      ensures SweepAllowed(old(View()), swept, CleanupDue(options, old(lastCleanupTime), now), now)
      ensures (View(), r) == TryGetSpec(Drop(old(View()), swept), key, now)
      ensures lastCleanupTime == if CleanupDue(options, old(lastCleanupTime), now) then now else old(lastCleanupTime)
    {
      swept := CheckAndPerformBackgroundCleanup(now);
      ghost var v1 := View();
      assert IsLive(v1, key, now) <==> key in cache && !cache[key].metadata.IsExpired(now) by {
        DetachKeys(cache);
      }
      if key in cache && !cache[key].metadata.IsExpired(now) {
        TouchEntry(key, now);
        r := Some(cache[key].value);
        return;
      }
      if key in cache {
        Erase(key);
      } else {
        assert Unlink(v1, key) == v1 by {
          ValidWf();
          DetachKeys(cache);
          UnlinkAbsent(v1, key);
        }
      }
      r := None;
    }

    /** Erase an entry, expired or not, and report whether there was one; no sweep runs. */
    method Remove(key: K) returns (removed: bool)
      requires Valid()
      modifies this
      ensures Valid()
      ensures (View(), removed) == RemoveSpec(old(View()), key)
      ensures lastCleanupTime == old(lastCleanupTime)
    {
      ghost var v0 := View();
      assert key in v0.items <==> key in cache by {
        DetachKeys(cache);
      }
      if key in cache {
        Erase(key);
        return true;
      }
      assert Unlink(v0, key) == v0 by {
        ValidWf();
        UnlinkAbsent(v0, key);
      }
      return false;
    }

    /** Drop every entry and empty the list; the sweep clock is left as it was. */
    method Clear()
      modifies this
      ensures Valid()
      ensures View() == Empty()
      ensures cache == map[] && lruHead == None && lruTail == None
      ensures lastCleanupTime == old(lastCleanupTime)
    {
      cache := map[];
      lruHead := None;
      lruTail := None;
      order := [];
    }

    /** The number of stored entries, expired ones included. */
    function Size(): (n: nat)
      reads this
      requires Valid()
      ensures n == |View().items| == |View().order|
    {
      ValidWf();
      DetachKeys(cache);
      SizeIsOrderLength(View());
      |cache|
    }

    /** Whether nothing is stored, expired entries counting as stored. */
    function IsEmpty(): (b: bool)
      reads this
      requires Valid()
      ensures b <==> View().items == map[]
      ensures b <==> View().order == []
    {
      ValidWf();
      DetachKeys(cache);
      SizeIsOrderLength(View());
      |cache| == 0
    }

    /** Erase every entry expired at `now`, in table order. */
    method CleanupExpired(now: nat)
      requires Valid()
      modifies this
      ensures Valid()
      ensures View() == CleanupSpec(old(View()), now)
      ensures lastCleanupTime == old(lastCleanupTime)
    {
      ghost var v0 := View();
      ghost var expired := ExpiredKeys(v0, now);
      ghost var gone: set<K> := {};
      var pending := cache.Keys;
      assert expired <= pending && Drop(v0, gone) == v0 by {
        DetachKeys(cache);
        ValidWf();
        SweepNotDue(v0, gone, now);
      }
      while pending != {}
        invariant Valid() && lastCleanupTime == old(lastCleanupTime)
        invariant pending <= cache.Keys && gone !! pending
        invariant gone <= expired
        invariant forall k | k in expired && k !in pending :: k in gone
        invariant View() == Drop(v0, gone)
        decreases pending
      {
        var key :| key in pending;
        pending := pending - {key};
        assert cache[key].metadata.IsExpired(now) <==> key in expired by {
          assert key in Items() && Items()[key] == Detached(cache[key]);
        }
        if cache[key].metadata.IsExpired(now) {
          Erase(key);
          DropOneMore(v0, gone, key);
          gone := gone + {key};
        }
      }
      AllVisited(gone, expired, pending);
    }
  }
}
