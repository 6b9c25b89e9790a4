/**
 * Operations on a recency order: a sequence of distinct keys, most recently
 * used first. Removing keys from the order never reorders the rest, which is
 * what `Without` and `Keep` make precise.
 */
module KeyOrder {
  import opened Wrappers

  /** No key occurs twice: the first is not among the rest, and so on down the order. */
  predicate NoDup<K(==)>(s: seq<K>)
  {
    s == [] || (s[0] !in s[1..] && NoDup(s[1..]))
  }

  /** `s` with every occurrence of `k` taken out, the rest in their order. */
  function Without<K(==)>(s: seq<K>, k: K): (r: seq<K>)
    ensures |r| <= |s|
  {
    if s == [] then []
    else if s[0] == k then Without(s[1..], k)
    else [s[0]] + Without(s[1..], k)
  }

  /**
   * `Without(s, k)` holds exactly the keys of `s` other than `k`, keeps a
   * duplicate-free order duplicate-free, and is one shorter when `k` was
   * there once.
   */
  lemma {:induction false} WithoutMembers<K>(s: seq<K>, k: K)
    ensures forall x | x in Without(s, k) :: x in s && x != k
    ensures forall x | x in s && x != k :: x in Without(s, k)
    ensures NoDup(s) ==> NoDup(Without(s, k))
    ensures NoDup(s) && k in s ==> |Without(s, k)| == |s| - 1
  {
    if s != [] {
      WithoutMembers(s[1..], k);
      if NoDup(s) && s[0] == k {
        WithoutAbsent(s[1..], k);
      }
      assert forall x | x in s[1..] :: x in s;
      assert forall x | x in s && x != s[0] :: x in s[1..];
    }
  }

  /** Taking out a key that is not there changes nothing. */
  lemma {:induction false} WithoutAbsent<K>(s: seq<K>, k: K)
    requires k !in s
    ensures Without(s, k) == s
  {
    if s != [] {
      WithoutAbsent(s[1..], k);
      assert [s[0]] + s[1..] == s;
    }
  }

  /** The keys of `s` that belong to `ks`, in the order `s` has them. */
  function Keep<K(==)>(s: seq<K>, ks: set<K>): (r: seq<K>)
    ensures |r| <= |s|
  {
    if s == [] then []
    else if s[0] in ks then [s[0]] + Keep(s[1..], ks)
    else Keep(s[1..], ks)
  }

  /**
   * `Keep(s, ks)` holds exactly the keys of `s` that are in `ks`, and keeps a
   * duplicate-free order duplicate-free.
   */
  lemma {:induction false} KeepMembers<K>(s: seq<K>, ks: set<K>)
    ensures forall x | x in Keep(s, ks) :: x in s && x in ks
    ensures forall x | x in s && x in ks :: x in Keep(s, ks)
    ensures NoDup(s) ==> NoDup(Keep(s, ks))
  {
    if s != [] {
      KeepMembers(s[1..], ks);
      assert forall x | x in s[1..] :: x in s;
      assert forall x | x in s && x != s[0] :: x in s[1..];
    }
  }

  /** In a duplicate-free order, distinct positions hold distinct keys. */
  lemma {:induction false} NoDupDistinct<K>(s: seq<K>, i: nat, j: nat)
    requires NoDup(s) && i < j < |s|
    ensures s[i] != s[j]
  {
    if i == 0 {
      assert s[j] == s[1..][j - 1];
    } else {
      NoDupDistinct(s[1..], i - 1, j - 1);
    }
  }

  /** Taking out the key at position `i` of a duplicate-free order closes the gap. */
  lemma {:induction false} WithoutAt<K>(s: seq<K>, i: nat)
    requires NoDup(s) && i < |s|
    ensures Without(s, s[i]) == s[..i] + s[i + 1..]
  {
    if i == 0 {
      WithoutAbsent(s[1..], s[0]);
      assert s[1..] == s[..0] + s[1..];
    } else {
      WithoutAt(s[1..], i - 1);
      assert s[1..][i - 1] == s[i];
      assert s[1..][..i - 1] + s[1..][i..] == s[1..i] + s[i + 1..];
      assert s[..i] + s[i + 1..] == [s[0]] + (s[1..i] + s[i + 1..]);
    }
  }

  /** Keeping a superset of the order's keys keeps the whole order. */
  lemma {:induction false} KeepAll<K>(s: seq<K>, ks: set<K>)
    requires forall x | x in s :: x in ks
    ensures Keep(s, ks) == s
  {
    if s != [] {
      KeepAll(s[1..], ks);
      assert [s[0]] + s[1..] == s;
    }
  }

  /** Dropping one more key from a kept order is `Without` on the kept order. */
  lemma {:induction false} KeepLess<K>(s: seq<K>, ks: set<K>, k: K)
    ensures Keep(s, ks - {k}) == Without(Keep(s, ks), k)
  {
    if s != [] {
      KeepLess(s[1..], ks, k);
    }
  }

  /** On an order whose keys are exactly `ks`, `Without` is `Keep` of the rest. */
  lemma WithoutIsKeep<K>(s: seq<K>, ks: set<K>, k: K)
    requires forall x :: x in s <==> x in ks
    ensures Without(s, k) == Keep(s, ks - {k})
  {
    KeepAll(s, ks);
    KeepLess(s, ks, k);
  }

  /** A duplicate-free order has as many positions as it has distinct keys. */
  lemma {:induction false} DistinctCount<K>(s: seq<K>, ks: set<K>)
    requires NoDup(s)
    requires forall x :: x in s <==> x in ks
    ensures |ks| == |s|
  {
    if s == [] {
      assert ks == {};
    } else {
      var rest := ks - {s[0]};
      forall x
        ensures x in s[1..] <==> x in rest
      {
        if x in s[1..] {
          var j :| 0 <= j < |s[1..]| && s[1..][j] == x;
          assert s[j + 1] == x;
        }
      }
      DistinctCount(s[1..], rest);
      assert ks == rest + {s[0]};
    }
  }

  /** Keeping a subset of what was already kept is keeping that subset. */
  lemma {:induction false} KeepTwice<K>(s: seq<K>, ks: set<K>, sub: set<K>)
    requires sub <= ks
    ensures Keep(Keep(s, ks), sub) == Keep(s, sub)
  {
    if s != [] {
      KeepTwice(s[1..], ks, sub);
    }
  }

  /** The first key, if any: where a list's head points. */
  function First<K>(s: seq<K>): Option<K>
  {
    if s == [] then None else Some(s[0])
  }

  /** The last key, if any: where a list's tail points. */
  function Last<K>(s: seq<K>): Option<K>
  {
    if s == [] then None else Some(s[|s| - 1])
  }

  /** The key before position `i`, if any: where its previous link points. */
  function Before<K>(s: seq<K>, i: nat): Option<K>
    requires i < |s|
  {
    if i == 0 then None else Some(s[i - 1])
  }

  /** The key after position `i`, if any: where its next link points. */
  function After<K>(s: seq<K>, i: nat): Option<K>
    requires i < |s|
  {
    if i + 1 == |s| then None else Some(s[i + 1])
  }

  /** Adding a key not yet in a set grows it by one. */
  lemma AddFresh<K>(s: set<K>, k: K)
    requires k !in s
    ensures |s + {k}| == |s| + 1
  {
  }

  /** A walk that has visited everything and collected every target it met collected exactly the targets. */
  lemma AllVisited<K>(done: set<K>, targets: set<K>, pending: set<K>)
    requires done <= targets && pending == {}
    requires forall k | k in targets && k !in pending :: k in done
    ensures done == targets
  {
  }

  /** Erasing a set of keys from a map removes at most that many entries. */
  lemma EraseCount<K, V>(m: map<K, V>, gone: set<K>)
    ensures |m| - |m - gone| <= |gone|
  {
    var keys := m.Keys;
    var hit := keys * gone;
    assert (m - gone).Keys == keys - gone;
    assert keys == (keys - gone) + hit;
    assert (keys - gone) * hit == {};
    assert hit <= gone;
  }
}
