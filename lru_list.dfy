/**
 * The intrusive recency list, read as a relation between a sequence of keys
 * and the link fields of the entries stored under them. A link names the key
 * of the entry it points at. The two pointer rewrites the cache performs,
 * linking at the head and unlinking from anywhere, are proved here to keep
 * the list threaded along the expected sequence.
 */
module LruList {
  import opened Wrappers
  import opened KeyOrder
  import opened Entries
  import opened CacheSpec

  /** The entry at position `i` of `s` links to its neighbours in `s`. */
  ghost predicate LinksAt<K, V>(s: seq<K>, m: map<K, CachedItem<K, V>>, i: nat)
    requires i < |s|
  {
    && s[i] in m
    && m[s[i]].metadata.lruPrev == Before(s, i)
    && m[s[i]].metadata.lruNext == After(s, i)
  }

  /**
   * `s` lists distinct stored keys, `head` and `tail` are its ends and every
   * entry on it links to its neighbours.
   */
  ghost predicate Threaded<K, V>(s: seq<K>, m: map<K, CachedItem<K, V>>, head: Option<K>, tail: Option<K>)
  {
    && NoDup(s)
    && (forall i | 0 <= i < |s| :: s[i] in m)
    && head == First(s)
    && tail == Last(s)
    && (forall i | 0 <= i < |s| :: LinksAt(s, m, i))
  }

  /** `m` with the entry under `k` given a new previous link (`entry->lruPrev = prev`). */
  function SetPrev<K, V>(m: map<K, CachedItem<K, V>>, k: K, prev: Option<K>): map<K, CachedItem<K, V>>
    requires k in m
  {
    m[k := m[k].(metadata := m[k].metadata.(lruPrev := prev))]
  }

  /** `m` with the entry under `k` given a new next link (`entry->lruNext = next`). */
  function SetNext<K, V>(m: map<K, CachedItem<K, V>>, k: K, next: Option<K>): map<K, CachedItem<K, V>>
    requires k in m
  {
    m[k := m[k].(metadata := m[k].metadata.(lruNext := next))]
  }

  /** `m` with the entry under `k` given both links. */
  function SetLinks<K, V>(m: map<K, CachedItem<K, V>>, k: K, prev: Option<K>, next: Option<K>): map<K, CachedItem<K, V>>
    requires k in m
  {
    m[k := m[k].(metadata := m[k].metadata.Relinked(prev, next))]
  }

  /** Two maps hold the same keys and, links aside, the same items. */
  ghost predicate SameItems<K, V>(m: map<K, CachedItem<K, V>>, m': map<K, CachedItem<K, V>>)
  {
    && m.Keys == m'.Keys
    && (forall k | k in m :: Detached(m[k]) == Detached(m'[k]))
  }

  /** Every stored item, its links erased. */
  ghost function DetachAll<K, V>(m: map<K, CachedItem<K, V>>): map<K, CachedItem<K, V>>
  {
    map k | k in m :: Detached(m[k])
  }

  /** Erasing a key erases just its item. */
  lemma DetachErase<K, V>(m: map<K, CachedItem<K, V>>, key: K)
    ensures DetachAll(m - {key}) == DetachAll(m) - {key}
  {
  }

  /** Detaching keeps the keys, and so the size. */
  lemma DetachKeys<K, V>(m: map<K, CachedItem<K, V>>)
    ensures DetachAll(m).Keys == m.Keys && |DetachAll(m)| == |m|
  {
    assert DetachAll(m).Keys == m.Keys;
  }

  /** Storing an item stores it with its links erased. */
  lemma DetachStore<K, V>(m: map<K, CachedItem<K, V>>, key: K, item: CachedItem<K, V>)
    ensures DetachAll(m[key := item]) == DetachAll(m)[key := Detached(item)]
  {
  }

  /**
   * Storing an item keeps the list threaded when the key is off the list or
   * the item keeps the links of the entry it replaces.
   */
  lemma ThreadedStore<K, V>(s: seq<K>, m: map<K, CachedItem<K, V>>, head: Option<K>, tail: Option<K>,
                            key: K, item: CachedItem<K, V>, m': map<K, CachedItem<K, V>>)
    requires Threaded(s, m, head, tail) && m' == m[key := item]
    requires key in s ==> key in m && item.metadata.lruPrev == m[key].metadata.lruPrev
                                   && item.metadata.lruNext == m[key].metadata.lruNext
    ensures Threaded(s, m', head, tail)
  {
    forall i | 0 <= i < |s|
      ensures LinksAt(s, m', i)
    {
      assert LinksAt(s, m, i);
    }
  }

  /** Erasing a key off the list keeps the list threaded. */
  lemma ThreadedErase<K, V>(s: seq<K>, m: map<K, CachedItem<K, V>>, head: Option<K>, tail: Option<K>, key: K)
    requires Threaded(s, m, head, tail) && key !in s
    ensures Threaded(s, m - {key}, head, tail)
  {
    var m' := m - {key};
    forall i | 0 <= i < |s|
      ensures LinksAt(s, m', i)
    {
      assert LinksAt(s, m, i);
    }
  }

  /** Maps that agree links aside detach to the same map. */
  lemma SameItemsDetach<K, V>(m: map<K, CachedItem<K, V>>, m': map<K, CachedItem<K, V>>)
    requires SameItems(m, m')
    ensures DetachAll(m) == DetachAll(m')
  {
  }

  /**
   * Linking a stored, unlisted entry in front of the head threads the list
   * along `[key] + s`; only links change.
   */
  lemma AddAtHead<K, V>(s: seq<K>, m: map<K, CachedItem<K, V>>, head: Option<K>, tail: Option<K>, key: K,
                        m': map<K, CachedItem<K, V>>, tail': Option<K>)
    requires Threaded(s, m, head, tail) && key in m && key !in s
    requires var m1 := SetLinks(m, key, None, head);
      m' == (if head.Some? then SetPrev(m1, head.value, Some(key)) else m1)
    requires tail' == (if head.Some? then tail else Some(key))
    ensures Threaded([key] + s, m', Some(key), tail')
    ensures DetachAll(m') == DetachAll(m) && m'.Keys == m.Keys
  {
    assert SameItems(m, m');
    SameItemsDetach(m, m');
    var t := [key] + s;
    assert NoDup(t) by { assert t[1..] == s; }
    forall j | 0 <= j < |t|
      ensures LinksAt(t, m', j)
    {
      if j == 0 {
        if s != [] {
          assert head == Some(s[0]);
          assert s[0] != key;
        }
      } else {
        assert t[j] == s[j - 1];
        assert LinksAt(s, m, j - 1);
        assert s[j - 1] != key;
        if j == 1 {
          assert head == Some(s[0]);
        } else {
          assert s[j - 1] != s[0] by { NoDupDistinct(s, 0, j - 1); }
        }
      }
    }
  }

  /**
   * The links after unlinking the entry under `key`, whose links are `prev`
   * and `next`: its predecessor takes its next link, its successor its
   * previous link, and its own links are cleared.
   */
  function Unthread<K, V>(m: map<K, CachedItem<K, V>>, key: K, prev: Option<K>, next: Option<K>): map<K, CachedItem<K, V>>
    requires key in m && (prev.Some? ==> prev.value in m) && (next.Some? ==> next.value in m)
  {
    var m1 := if prev.Some? then SetNext(m, prev.value, next) else m;
    var m2 := if next.Some? then SetPrev(m1, next.value, prev) else m1;
    SetLinks(m2, key, None, None)
  }

  /**
   * Unlinking the entry at position `i`, given the map and ends the pointer
   * rewrites produce from its own links, threads the list along `s` without
   * it; only links change, and its own are cleared.
   */
  lemma RemoveAt<K, V>(s: seq<K>, m: map<K, CachedItem<K, V>>, head: Option<K>, tail: Option<K>, i: nat,
                       m': map<K, CachedItem<K, V>>, head': Option<K>, tail': Option<K>)
    requires Threaded(s, m, head, tail) && i < |s| && LinksAt(s, m, i)
    requires var e := m[s[i]].metadata;
      && m' == Unthread(m, s[i], e.lruPrev, e.lruNext)
      && head' == (if e.lruPrev.Some? then head else e.lruNext)
      && tail' == (if e.lruNext.Some? then tail else e.lruPrev)
    ensures Threaded(Without(s, s[i]), m', head', tail')
    ensures DetachAll(m') == DetachAll(m) && m'.Keys == m.Keys
    ensures s[i] in m' && Unlinked(m'[s[i]].metadata)
  {
    assert m' == Unthread(m, s[i], Before(s, i), After(s, i));
    RemoveAtItems(s, m, head, tail, i);
    RemoveAtEnds(s, m, head, tail, i);
    RemoveAtLinks(s, m, head, tail, i);
    assert Threaded(s[..i] + s[i + 1..], m', head', tail');
    WithoutAt(s, i);
    SameItemsDetach(m, m');
  }

  /** Unlinking changes only links, and clears the unlinked entry's. */
  lemma RemoveAtItems<K, V>(s: seq<K>, m: map<K, CachedItem<K, V>>, head: Option<K>, tail: Option<K>, i: nat)
    requires Threaded(s, m, head, tail) && i < |s|
    ensures var m' := Unthread(m, s[i], Before(s, i), After(s, i));
      s[i] in m' && Unlinked(m'[s[i]].metadata) && SameItems(m, m')
  {
    var m' := Unthread(m, s[i], Before(s, i), After(s, i));
    forall k | k in m
      ensures Detached(m[k]) == Detached(m'[k])
    {
    }
  }

  /** Without position `i`, the order stays duplicate-free, its keys stored, with the expected ends. */
  lemma RemoveAtEnds<K, V>(s: seq<K>, m: map<K, CachedItem<K, V>>, head: Option<K>, tail: Option<K>, i: nat)
    requires Threaded(s, m, head, tail) && i < |s|
    ensures var t := s[..i] + s[i + 1..];
      && NoDup(t)
      && (forall j | 0 <= j < |t| :: t[j] in Unthread(m, s[i], Before(s, i), After(s, i)))
      && (if i == 0 then After(s, i) else head) == First(t)
      && (if i + 1 == |s| then Before(s, i) else tail) == Last(t)
  {
    var t := s[..i] + s[i + 1..];
    WithoutAt(s, i);
    WithoutMembers(s, s[i]);
    if i == 0 && |s| > 1 { assert t[0] == s[1]; }
    if i + 1 == |s| && i > 0 { assert t[|t| - 1] == s[i - 1]; }
    if i + 1 < |s| { assert t[|t| - 1] == s[|s| - 1]; }
    forall j | 0 <= j < |t|
      ensures t[j] in Unthread(m, s[i], Before(s, i), After(s, i))
    {
      assert t[j] == s[if j < i then j else j + 1];
    }
  }

  /** Without position `i`, every remaining entry links to its new neighbours. */
  lemma RemoveAtLinks<K, V>(s: seq<K>, m: map<K, CachedItem<K, V>>, head: Option<K>, tail: Option<K>, i: nat)
    requires Threaded(s, m, head, tail) && i < |s|
    ensures var t := s[..i] + s[i + 1..];
      forall j | 0 <= j < |t| :: LinksAt(t, Unthread(m, s[i], Before(s, i), After(s, i)), j)
  {
    var t := s[..i] + s[i + 1..];
    forall j | 0 <= j < |t|
      ensures LinksAt(t, Unthread(m, s[i], Before(s, i), After(s, i)), j)
    {
      if j < i {
        assert t[j] == s[j];
        if j + 1 < i { assert t[j + 1] == s[j + 1]; } else if j + 1 < |t| { assert t[j + 1] == s[i + 1]; }
        if j > 0 { assert t[j - 1] == s[j - 1]; }
        RemoveAtBefore(s, m, head, tail, i, j);
      } else {
        assert t[j] == s[j + 1];
        if j > i { assert t[j - 1] == s[j]; } else if j > 0 { assert t[j - 1] == s[i - 1]; }
        if j + 1 < |t| { assert t[j + 1] == s[j + 2]; }
        RemoveAtAfter(s, m, head, tail, i, j + 1);
      }
    }
  }

  /** After unlinking position `i`, an entry before it links to its neighbours without it. */
  lemma RemoveAtBefore<K, V>(s: seq<K>, m: map<K, CachedItem<K, V>>, head: Option<K>, tail: Option<K>, i: nat, j: nat)
    requires Threaded(s, m, head, tail) && j < i < |s|
    ensures var m' := Unthread(m, s[i], Before(s, i), After(s, i));
      && s[j] in m'
      && m'[s[j]].metadata.lruPrev == Before(s, j)
      && m'[s[j]].metadata.lruNext == (if j + 1 < i then Some(s[j + 1]) else After(s, i))
  {
    assert LinksAt(s, m, j);
    NoDupDistinct(s, j, i);
    if i + 1 < |s| { NoDupDistinct(s, j, i + 1); }
    if j < i - 1 { NoDupDistinct(s, j, i - 1); }
  }

  /** After unlinking position `i`, an entry after it links to its neighbours without it. */
  lemma RemoveAtAfter<K, V>(s: seq<K>, m: map<K, CachedItem<K, V>>, head: Option<K>, tail: Option<K>, i: nat, j: nat)
    requires Threaded(s, m, head, tail) && i < j < |s|
    ensures var m' := Unthread(m, s[i], Before(s, i), After(s, i));
      && s[j] in m'
      && m'[s[j]].metadata.lruPrev == (if j - 1 > i then Some(s[j - 1]) else Before(s, i))
      && m'[s[j]].metadata.lruNext == After(s, j)
  {
    assert LinksAt(s, m, j);
    NoDupDistinct(s, i, j);
    if i > 0 { NoDupDistinct(s, i - 1, j); }
    if j > i + 1 { NoDupDistinct(s, i + 1, j); }
  }
}
