/**
 * Short runs of the cache, stated over any distinct keys and items: the
 * capacity, recency and sliding-window behaviour the cache's design promises,
 * derived from the operation functions in `CacheSpec`.
 */
module CacheScenarios {
  import opened KeyOrder
  import opened Entries
  import opened CacheSpec

  /**
   * Sliding reset: after a hit at `now`, the entry stays live exactly while no
   * more than its sliding expiration has passed since `now`.
   */
  lemma SlidingReset<K, V>(v: CacheView<K, V>, key: K, now: nat, later: nat)
    requires IsLive(v, key, now)
    ensures var w := TryGetSpec(v, key, now).0;
      IsLive(w, key, later) <==> later - now <= v.items[key].metadata.slidingExpiration
  {
  }

  /** The first admission into an empty cache stores the key alone. */
  lemma FirstFits<K, V>(options: LruCacheOptions, a: K, ia: CachedItem<K, V>, v1: CacheView<K, V>)
    requires options.sizeLimit == 2
    requires v1 == Admit(options, Empty(), a, ia)
    ensures v1.order == [a] && v1.items.Keys == {a} && |v1.items| == 1 && v1.items[a] == ia
  {
    AdmitFresh(options, Empty(), a, ia);
  }

  /** A second, distinct key fits beside the first under a limit of two. */
  lemma SecondFits<K, V>(options: LruCacheOptions, a: K, b: K, ib: CachedItem<K, V>,
                         v1: CacheView<K, V>, v2: CacheView<K, V>)
    requires options.sizeLimit == 2 && a != b
    requires v1.order == [a] && v1.items.Keys == {a} && |v1.items| == 1
    requires v2 == Admit(options, v1, b, ib)
    ensures v2.order == [b, a] && v2.items.Keys == {a, b} && |v2.items| == 2
    ensures v2.items[a] == v1.items[a]
  {
    AdmitFresh(options, v1, b, ib);
  }

  /** Evicting from the order `[b, a]` drops `a`. */
  lemma EvictFromTwo<K, V>(v: CacheView<K, V>, a: K, b: K)
    requires a != b && v.order == [b, a] && v.items.Keys == {a, b}
    ensures EvictTail(v).order == [b] && EvictTail(v).items.Keys == {b}
  {
    assert EvictTail(v) == Unlink(v, a);
    assert Without([a], a) == [] by {
      assert [a][1..] == [];
    }
    assert [b, a][1..] == [a];
  }

  /** A third key admitted behind `[b, a]` under a limit of two evicts `a`. */
  lemma ThirdEvicts<K, V>(options: LruCacheOptions, a: K, b: K, c: K, ic: CachedItem<K, V>,
                          v2: CacheView<K, V>, v3: CacheView<K, V>)
    requires options.sizeLimit == 2 && a != b && b != c && a != c
    requires v2.order == [b, a] && v2.items.Keys == {a, b} && |v2.items| == 2
    requires v3 == Admit(options, v2, c, ic)
    ensures v3.items.Keys == {b, c} && v3.order == [c, b]
  {
    AdmitFull(options, v2, c, ic);
    EvictFromTwo(v2, a, b);
  }

  /**
   * With room for two entries, admitting three distinct keys in turn leaves
   * the last two, most recent first: the first key is evicted.
   */
  lemma CapacityTwo<K, V>(options: LruCacheOptions, a: K, b: K, c: K,
                          ia: CachedItem<K, V>, ib: CachedItem<K, V>, ic: CachedItem<K, V>,
                          v1: CacheView<K, V>, v2: CacheView<K, V>, v3: CacheView<K, V>)
    requires options.sizeLimit == 2 && a != b && b != c && a != c
    requires v1 == Admit(options, Empty(), a, ia)
    requires v2 == Admit(options, v1, b, ib)
    requires v3 == Admit(options, v2, c, ic)
    ensures v3.items.Keys == {b, c} && v3.order == [c, b]
  {
    FirstFits(options, a, ia, v1);
    SecondFits(options, a, b, ib, v1, v2);
    ThirdEvicts(options, a, b, c, ic, v2, v3);
  }

  /** A hit on the older of two keys makes it the head. */
  lemma HitOlder<K, V>(a: K, b: K, now: nat, v2: CacheView<K, V>, v3: CacheView<K, V>)
    requires a != b && v2.order == [b, a] && v2.items.Keys == {a, b} && |v2.items| == 2
    requires !v2.items[a].metadata.IsExpired(now)
    requires v3 == TryGetSpec(v2, a, now).0
    ensures v3.order == [a, b] && v3.items.Keys == {b, a} && |v3.items| == 2
  {
    assert IsLive(v2, a, now);
    assert Without([b, a], a) == [b] by {
      assert [b, a][1..] == [a];
      assert Without([a], a) == [] by {
        assert [a][1..] == [];
      }
    }
  }

  /**
   * Recency decides eviction: with room for two, admit `a` then `b`, hit `a`
   * while it is live, and admit `c`; `b`, now least recently used, is the one
   * evicted.
   */
  lemma HitProtectsFromEviction<K, V>(options: LruCacheOptions, a: K, b: K, c: K,
                                      ia: CachedItem<K, V>, ib: CachedItem<K, V>, ic: CachedItem<K, V>, now: nat,
                                      v1: CacheView<K, V>, v2: CacheView<K, V>, v3: CacheView<K, V>, v4: CacheView<K, V>)
    requires options.sizeLimit == 2 && a != b && b != c && a != c
    requires !ia.metadata.IsExpired(now)
    requires v1 == Admit(options, Empty(), a, ia)
    requires v2 == Admit(options, v1, b, ib)
    requires v3 == TryGetSpec(v2, a, now).0
    requires v4 == Admit(options, v3, c, ic)
    ensures v4.items.Keys == {a, c} && v4.order == [c, a]
  {
    FirstFits(options, a, ia, v1);
    SecondFits(options, a, b, ib, v1, v2);
    HitOlder(a, b, now, v2, v3);
    ThirdEvicts(options, b, a, c, ic, v3, v4);
  }
}
