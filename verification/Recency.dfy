/**
 The local key cache as a value: its entries from most to least recently used.

 These functions say what each cache operation does; `LocalCache` proves that the linked structure
 does exactly this.
 */
module Recency {
  import opened Wrappers

  datatype Entry<V> = Entry(id: nat, key: V, expiresAt: int, accessAt: int, hitCount: int)

  predicate Distinct<V>(s: seq<Entry<V>>) {
    forall i, j :: 0 <= i < j < |s| ==> s[i].id != s[j].id
  }

  function Ids<V>(s: seq<Entry<V>>): (ids: seq<nat>)
    ensures |ids| == |s|
  {
    seq(|s|, i requires 0 <= i < |s| => s[i].id)
  }

  predicate Has<V>(s: seq<Entry<V>>, id: nat) {
    exists i :: 0 <= i < |s| && s[i].id == id
  }

  /** The position of an id; the length when it is not there. */
  function Index<V>(s: seq<Entry<V>>, id: nat): (k: nat)
    ensures k <= |s|
  {
    if s == [] then 0 else if s[0].id == id then 0 else 1 + Index(s[1..], id)
  }

  lemma {:induction false} IndexFinds<V>(s: seq<Entry<V>>, id: nat)
    ensures var k := Index(s, id); (k < |s| <==> Has(s, id)) && (k < |s| ==> s[k].id == id)
  {
    if s != [] && s[0].id != id {
      IndexFinds(s[1..], id);
      assert Has(s[1..], id) <==> Has(s, id) by {
        if Has(s, id) {
          var i :| 0 <= i < |s| && s[i].id == id;
          assert s[1..][i - 1].id == id;
        }
      }
    }
  }

  /** The sequence without its k-th element. */
  function Cut<T>(s: seq<T>, k: nat): seq<T>
    requires k < |s|
  {
    s[..k] + s[k + 1..]
  }

  lemma CutAt<T>(s: seq<T>, k: nat, i: nat)
    requires k < |s| && i < |s| - 1
    ensures Cut(s, k)[i] == s[if i < k then i else i + 1]
  {
  }

  lemma IdsOfCut<V>(s: seq<Entry<V>>, k: nat)
    requires k < |s|
    ensures Ids(Cut(s, k)) == Cut(Ids(s), k)
  {
  }

  function Removed<V>(s: seq<Entry<V>>, id: nat): seq<Entry<V>> {
    if Index(s, id) < |s| then Cut(s, Index(s, id)) else s
  }

  predicate Expired<V>(e: Entry<V>, now: int) {
    now > e.expiresAt
  }

  // ---------- The operations ----------

  function Get<V>(s: seq<Entry<V>>, id: nat, now: int): (Option<V>, seq<Entry<V>>) {
    var k := Index(s, id);
    if k == |s| then (None, s)
    else if Expired(s[k], now) then (None, Cut(s, k))
    else (Some(s[k].key), [s[k].(accessAt := now, hitCount := s[k].hitCount + 1)] + Cut(s, k))
  }

  lemma GetHits<V>(s: seq<Entry<V>>, id: nat, now: int, e: Entry<V>)
    requires Index(s, id) < |s| && s[Index(s, id)] == e && !Expired(e, now)
    ensures Get(s, id, now) ==
            (Some(e.key), [Entry(id, e.key, e.expiresAt, now, e.hitCount + 1)] + Cut(s, Index(s, id)))
  {
    IndexFinds(s, id);
  }

  /** The last entry goes, unless its id is 0: eviction takes id 0 for "nothing found". */
  function Evicted<V>(s: seq<Entry<V>>): seq<Entry<V>> {
    if s == [] || s[|s| - 1].id == 0 then s else s[..|s| - 1]
  }

  function Set<V>(s: seq<Entry<V>>, id: nat, key: V, now: int, ttl: int, maxSize: int): seq<Entry<V>> {
    var k := Index(s, id);
    if k < |s| then [s[k].(key := key, expiresAt := now + ttl, accessAt := now)] + Cut(s, k)
    else [Entry(id, key, now + ttl, now, 0)] + if |s| >= maxSize then Evicted(s) else s
  }

  /** How many entries setting an id evicts: one at most. */
  function Evictions<V>(s: seq<Entry<V>>, id: nat, maxSize: int): nat {
    if Index(s, id) < |s| || |s| < maxSize then 0 else |s| - |Evicted(s)|
  }

  /** The entries that have not expired, in their old order. */
  function Cleaned<V>(s: seq<Entry<V>>, now: int): seq<Entry<V>> {
    if s == [] then []
    else
      var rest := Cleaned(s[..|s| - 1], now);
      if Expired(s[|s| - 1], now) then rest else rest + [s[|s| - 1]]
  }

  lemma RemovedLast<V>(s: seq<Entry<V>>)
    requires Distinct(s) && s != []
    ensures Removed(s, s[|s| - 1].id) == s[..|s| - 1]
  {
    IndexFinds(s, s[|s| - 1].id);
  }

  // ---------- What they keep ----------

  lemma CutDistinct<V>(s: seq<Entry<V>>, k: nat)
    requires Distinct(s) && k < |s|
    ensures Distinct(Cut(s, k)) && !Has(Cut(s, k), s[k].id)
    ensures forall id :: Has(Cut(s, k), id) ==> Has(s, id)
  {
    var c := Cut(s, k);
    forall i | 0 <= i < |c| ensures c[i] == s[if i < k then i else i + 1] {
      CutAt(s, k, i);
    }
  }

  /** No operation ever holds a key twice. */
  lemma OperationsKeepDistinct<V>(s: seq<Entry<V>>, id: nat, key: V, now: int, ttl: int, maxSize: int)
    requires Distinct(s)
    ensures Distinct(Get(s, id, now).1) && Distinct(Set(s, id, key, now, ttl, maxSize))
    ensures Distinct(Removed(s, id)) && Distinct(Evicted(s))
  {
    IndexFinds(s, id);
    var k := Index(s, id);
    if k < |s| {
      CutDistinct(s, k);
      FrontDistinct(s[k].(accessAt := now, hitCount := s[k].hitCount + 1), Cut(s, k));
      FrontDistinct(s[k].(key := key, expiresAt := now + ttl, accessAt := now), Cut(s, k));
    } else {
      FrontDistinct(Entry(id, key, now + ttl, now, 0), s);
    }
  }

  lemma FrontDistinct<V>(e: Entry<V>, s: seq<Entry<V>>)
    requires Distinct(s) && !Has(s, e.id)
    ensures Distinct([e] + s)
  {
  }

  /**
   A bounded cache stays within max(1, maxSize), except when a new key meets a full cache whose least
   recently used key has id 0: then nothing is evicted, and the cache grows past its bound.
   */
  lemma SizeStaysBounded<V>(s: seq<Entry<V>>, id: nat, key: V, now: int, ttl: int, maxSize: int)
    requires var bound := if maxSize < 1 then 1 else maxSize; |s| <= bound
    ensures var bound := if maxSize < 1 then 1 else maxSize;
            && |Get(s, id, now).1| <= bound
            && (|Set(s, id, key, now, ttl, maxSize)| <= bound <==>
                  !(!Has(s, id) && |s| == bound && s[|s| - 1].id == 0))
  {
    IndexFinds(s, id);
  }

  /** Id 0 cached first, then two more keys into a cache of size 2: three entries. */
  lemma ZeroIdIsNeverEvicted()
    ensures var s0 := Set<string>([], 0, "a", 0, 10, 2);
            var s1 := Set(s0, 1, "b", 0, 10, 2);
            |Set(s1, 2, "c", 0, 10, 2)| == 3
  {
    var s0 := Set<string>([], 0, "a", 0, 10, 2);
    var s1 := Set(s0, 1, "b", 0, 10, 2);
    IndexFinds(s0, 1);
    IndexFinds(s1, 2);
    assert s1 == [Entry(1, "b", 10, 0, 0), Entry(0, "a", 10, 0, 0)];
  }

  /** A new key in a full cache drops exactly the last key; every other key keeps its relative order. */
  lemma NewKeyDropsTheLast<V>(s: seq<Entry<V>>, id: nat, key: V, now: int, ttl: int, maxSize: int)
    requires Distinct(s) && !Has(s, id) && |s| >= maxSize && s != [] && s[|s| - 1].id != 0
    ensures var t := Set(s, id, key, now, ttl, maxSize);
            && t[0].id == id && t[1..] == s[..|s| - 1]
            && !Has(t, s[|s| - 1].id)
  {
    IndexFinds(s, id);
    var t := Set(s, id, key, now, ttl, maxSize);
    assert t[1..] == s[..|s| - 1];
    forall i | 0 <= i < |t| ensures t[i].id != s[|s| - 1].id {
      assert i > 0 ==> t[i] == s[i - 1];
    }
  }

  lemma {:induction false} CleanedEntries<V>(s: seq<Entry<V>>, now: int)
    ensures forall e :: e in Cleaned(s, now) <==> e in s && !Expired(e, now)
  {
    if s != [] {
      CleanedEntries(s[..|s| - 1], now);
      assert forall e :: e in s <==> e in s[..|s| - 1] || e == s[|s| - 1];
    }
  }

  lemma {:induction false} CleanedAll<V>(s: seq<Entry<V>>, now: int)
    requires forall i :: 0 <= i < |s| ==> !Expired(s[i], now)
    ensures Cleaned(s, now) == s
  {
    if s != [] {
      CleanedAll(s[..|s| - 1], now);
    }
  }

  lemma {:induction false} CleanedAppend<V>(s: seq<Entry<V>>, t: seq<Entry<V>>, now: int)
    ensures Cleaned(s + t, now) == Cleaned(s, now) + Cleaned(t, now)
  {
    if t == [] {
      assert s + t == s;
    } else {
      assert (s + t)[..|s + t| - 1] == s + t[..|t| - 1];
      CleanedAppend(s, t[..|t| - 1], now);
    }
  }

  /** Removing one expired entry, wherever it stands, does not change what cleaning leaves. */
  lemma CleanedAfterCut<V>(s: seq<Entry<V>>, k: nat, now: int)
    requires k < |s| && Expired(s[k], now)
    ensures Cleaned(Cut(s, k), now) == Cleaned(s, now)
  {
    assert s == s[..k] + [s[k]] + s[k + 1..];
    CleanedAppend(s[..k] + [s[k]], s[k + 1..], now);
    CleanedAppend(s[..k], [s[k]], now);
    CleanedAppend(s[..k], s[k + 1..], now);
    assert Cleaned([s[k]], now) == Cleaned<V>([], now) == [];
  }

  /** The ids still to be removed are those of the expired entries. */
  predicate Marked<V>(s: seq<Entry<V>>, now: int, ids: seq<nat>) {
    forall k :: 0 <= k < |s| ==> (s[k].id in ids <==> Expired(s[k], now))
  }

  lemma CleanStep<V>(s: seq<Entry<V>>, now: int, ids: seq<nat>)
    requires Distinct(s) && ids != [] && Marked(s, now, ids)
    ensures Cleaned(Removed(s, ids[0]), now) == Cleaned(s, now)
    ensures Marked(Removed(s, ids[0]), now, ids[1..])
  {
    IndexFinds(s, ids[0]);
    var k, t := Index(s, ids[0]), Removed(s, ids[0]);
    if k < |s| {
      CleanedAfterCut(s, k, now);
      forall i | 0 <= i < |t| ensures t[i].id in ids[1..] <==> Expired(t[i], now) {
        CutAt(s, k, i);
      }
    }
  }

  // ---------- Shrinking ----------

  function EvictedTimes<V>(s: seq<Entry<V>>, n: nat): seq<Entry<V>> {
    if n == 0 then s else Evicted(EvictedTimes(s, n - 1))
  }

  /** Every entry past the new size can be evicted. */
  predicate Shrinkable<V>(s: seq<Entry<V>>, size: int) {
    |s| <= size || (0 <= size && forall i :: size <= i < |s| ==> s[i].id != 0)
  }

  lemma EvictedPrefix<V>(s: seq<Entry<V>>, size: int, m: nat)
    requires Shrinkable(s, size) && size < m <= |s|
    ensures 0 < m && Evicted(s[..m]) == s[..m - 1]
  {
  }

  lemma {:induction false} EvictedTimesIsPrefix<V>(s: seq<Entry<V>>, n: nat)
    requires n <= |s| && forall i :: |s| - n <= i < |s| ==> s[i].id != 0
    ensures EvictedTimes(s, n) == s[..|s| - n]
  {
    if n > 0 {
      EvictedTimesIsPrefix(s, n - 1);
    }
  }

  lemma {:induction false} EvictionStopsAtZero<V>(s: seq<Entry<V>>, i: nat, n: nat)
    requires i < |s| && s[i].id == 0
    ensures i < |EvictedTimes(s, n)| <= |s| && EvictedTimes(s, n) <= s
  {
    if n > 0 {
      EvictionStopsAtZero(s, i, n - 1);
    }
  }

  /**
   The loop that evicts until the size fits ends exactly when no id-0 entry stands past the new size
   (and the new size is not negative); it then leaves the most recently used prefix.
   */
  lemma ShrinkingEnds<V>(s: seq<Entry<V>>, size: int)
    ensures (exists n: nat :: |EvictedTimes(s, n)| <= size) <==> Shrinkable(s, size)
    ensures Shrinkable(s, size) && size < |s| ==> EvictedTimes(s, |s| - size) == s[..size]
  {
    if Shrinkable(s, size) {
      if |s| <= size {
        assert |EvictedTimes(s, 0)| <= size;
      } else {
        EvictedTimesIsPrefix(s, |s| - size);
        assert |EvictedTimes(s, |s| - size)| <= size;
      }
    } else if 0 <= size {
      var i :| size <= i < |s| && s[i].id == 0;
      forall n: nat ensures |EvictedTimes(s, n)| > size {
        EvictionStopsAtZero(s, i, n);
      }
    }
  }
}
