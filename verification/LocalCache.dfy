/** The local key cache: a map of entries that are also chained between two sentinels, newest first. */
module LocalCache {
  import opened Wrappers
  import R = Recency

  class CacheEntry<V(0)> {
    ghost var id: nat
    var key: V
    var expiresAt: int
    var accessAt: int
    var hitCount: int
    var prev: CacheEntry?<V>
    var next: CacheEntry?<V>

    constructor Sentinel()
      ensures prev == null && next == null
    {
      prev, next := null, null;
    }

    constructor (ghost id: nat, key: V, expiresAt: int, accessAt: int)
      ensures Holds(R.Entry(id, key, expiresAt, accessAt, 0))
    {
      this.id, this.key, this.expiresAt, this.accessAt, hitCount := id, key, expiresAt, accessAt, 0;
      prev, next := null, null;
    }

    method Store(key: V, expiresAt: int, accessAt: int, hitCount: int)
      modifies this`key, this`expiresAt, this`accessAt, this`hitCount
      ensures Holds(R.Entry(id, key, expiresAt, accessAt, hitCount))
    {
      this.key, this.expiresAt, this.accessAt, this.hitCount := key, expiresAt, accessAt, hitCount;
    }

    ghost predicate Holds(e: R.Entry<V>)
      reads this`id, this`key, this`expiresAt, this`accessAt, this`hitCount
    {
      && id == e.id && key == e.key && expiresAt == e.expiresAt
      && accessAt == e.accessAt && hitCount == e.hitCount
    }
  }

  // ---------- The chain ----------

  // Named so that only the pairs a proof mentions are compared.
  ghost predicate Apart<T>(s: seq<T>, i: nat, j: nat)
    requires i < j < |s|
  {
    s[i] != s[j]
  }

  ghost predicate AllApart<T>(s: seq<T>) {
    forall i: nat, j: nat {:trigger Apart(s, i, j)} :: i < j < |s| ==> Apart(s, i, j)
  }

  lemma AllApartAfterCut<T>(s: seq<T>, k: nat)
    requires AllApart(s) && k < |s|
    ensures AllApart(R.Cut(s, k)) && s[k] !in R.Cut(s, k)
  {
    var cut := R.Cut(s, k);
    forall i: nat, j: nat | i < j < |cut| ensures Apart(cut, i, j) {
      R.CutAt(s, k, i);
      R.CutAt(s, k, j);
      assert Apart(s, if i < k then i else i + 1, if j < k then j else j + 1);
    }
    forall i | 0 <= i < |cut| ensures cut[i] != s[k] {
      R.CutAt(s, k, i);
      assert if i < k then Apart(s, i, k) else Apart(s, k, i + 1);
    }
  }

  lemma AllApartAfterAdd<T>(s: seq<T>, x: T)
    requires AllApart(s) && s != [] && x !in s
    ensures AllApart([s[0], x] + s[1..])
  {
    var now := [s[0], x] + s[1..];
    forall i: nat, j: nat | i < j < |now| ensures Apart(now, i, j) {
      assert j >= 2 ==> now[j] == s[j - 1];
      assert i >= 2 ==> Apart(s, i - 1, j - 1);
      assert i == 0 && j >= 2 ==> Apart(s, 0, j - 1);
    }
  }

  lemma DistinctIds<V>(contents: seq<R.Entry<V>>)
    ensures AllApart(R.Ids(contents)) <==> R.Distinct(contents)
  {
    var ids := R.Ids(contents);
    if AllApart(ids) {
      forall i, j | 0 <= i < j < |contents| ensures contents[i].id != contents[j].id {
        assert Apart(ids, i, j);
      }
    }
  }

  /** Neighbours in the chain point at each other. */
  ghost predicate Linked<V(0)>(chain: seq<CacheEntry<V>>)
    reads chain`prev, chain`next
  {
    && (forall i {:trigger chain[i].next} :: 0 <= i < |chain| - 1 ==> chain[i].next == chain[i + 1])
    && (forall i {:trigger chain[i].prev} :: 0 < i < |chain| ==> chain[i].prev == chain[i - 1])
  }

  /** The entries between the sentinels hold `contents`. */
  ghost predicate Holding<V(0)>(chain: seq<CacheEntry<V>>, contents: seq<R.Entry<V>>)
    reads chain`id, chain`key, chain`expiresAt, chain`accessAt, chain`hitCount
  {
    && |chain| == |contents| + 2
    && forall i :: 0 <= i < |contents| ==> chain[i + 1].Holds(contents[i])
  }

  lemma HoldingAfterCut<V(0)>(chain: seq<CacheEntry<V>>, contents: seq<R.Entry<V>>, k: nat)
    requires Holding(chain, contents) && k < |contents|
    ensures Holding(R.Cut(chain, k + 1), R.Cut(contents, k))
  {
    forall i | 0 <= i < |contents| - 1 ensures R.Cut(chain, k + 1)[i + 1].Holds(R.Cut(contents, k)[i]) {
      R.CutAt(contents, k, i);
      R.CutAt(chain, k + 1, i + 1);
    }
  }

  lemma HoldingAfterAdd<V(0)>(chain: seq<CacheEntry<V>>, contents: seq<R.Entry<V>>, entry: CacheEntry<V>, e: R.Entry<V>)
    requires Holding(chain, contents) && entry.Holds(e)
    ensures Holding([chain[0], entry] + chain[1..], [e] + contents)
  {
    var now, more := [chain[0], entry] + chain[1..], [e] + contents;
    forall i | 0 <= i < |more| ensures now[i + 1].Holds(more[i]) {
      assert i > 0 ==> now[i + 1] == chain[(i - 1) + 1] && more[i] == contents[i - 1];
    }
  }

  /** The entries between the sentinels are exactly those of `nodes`, each once, under their own ids. */
  ghost predicate Indexed<V(0)>(nodes: map<nat, CacheEntry<V>>, chain: seq<CacheEntry<V>>, ids: seq<nat>) {
    && |ids| == |chain| - 2 == |nodes|
    && AllApart(ids)
    && (forall i :: 0 <= i < |ids| ==> ids[i] in nodes && nodes[ids[i]] == chain[i + 1])
    && (forall id :: id in nodes ==> id in ids)
  }

  lemma IndexedAfterCut<V(0)>(nodes: map<nat, CacheEntry<V>>, chain: seq<CacheEntry<V>>, ids: seq<nat>, k: nat)
    requires Indexed(nodes, chain, ids) && k < |ids|
    ensures Indexed(nodes - {ids[k]}, R.Cut(chain, k + 1), R.Cut(ids, k))
  {
    var id, cut := ids[k], R.Cut(ids, k);
    AllApartAfterCut(ids, k);
    assert (nodes - {id}).Keys == nodes.Keys - {id};
    forall i | 0 <= i < |cut| ensures cut[i] in nodes - {id} && nodes[cut[i]] == R.Cut(chain, k + 1)[i + 1] {
      R.CutAt(ids, k, i);
      R.CutAt(chain, k + 1, i + 1);
      assert cut[i] in cut;
    }
    forall other | other in nodes - {id} ensures other in cut {
      var j :| 0 <= j < |ids| && ids[j] == other;
      R.CutAt(ids, k, if j < k then j else j - 1);
    }
  }

  lemma IndexedAfterAdd<V(0)>(nodes: map<nat, CacheEntry<V>>, chain: seq<CacheEntry<V>>, ids: seq<nat>,
                              entry: CacheEntry<V>, id: nat)
    requires Indexed(nodes, chain, ids) && id !in nodes
    ensures Indexed(nodes[id := entry], [chain[0], entry] + chain[1..], [id] + ids)
  {
    var more, now := [id] + ids, [chain[0], entry] + chain[1..];
    assert nodes[id := entry].Keys == nodes.Keys + {id};
    forall i: nat, j: nat | i < j < |more| ensures Apart(more, i, j) {
      assert ids[j - 1] in nodes;
      assert i > 0 ==> Apart(ids, i - 1, j - 1);
    }
    forall i | 0 <= i < |more|
      ensures more[i] in nodes[id := entry] && nodes[id := entry][more[i]] == now[i + 1]
    {
      if i > 0 {
        assert ids[i - 1] in nodes && nodes[ids[i - 1]] == chain[(i - 1) + 1];
      }
    }
  }

  class LRUList<V(0)> {
    const head: CacheEntry<V>
    const tail: CacheEntry<V>
    var size: int
    ghost var chain: seq<CacheEntry<V>>  // from head to tail
    ghost var contents: seq<R.Entry<V>>  // what the entries between them hold, newest first
    ghost var nodes: map<nat, CacheEntry<V>>  // the same entries by id
    ghost var repr: set<CacheEntry<V>>  // every entry that was ever linked

    /** The sentinels and the entries between them form one doubly linked, acyclic chain. */
    ghost predicate Chained()
      reads this`size, this`chain, this`repr, repr`prev, repr`next
    {
      && (forall i :: 0 <= i < |chain| ==> chain[i] in repr)
      && 2 <= |chain| && chain[0] == head && chain[|chain| - 1] == tail
      && AllApart(chain) && Linked(chain)
      && chain[0].prev == null && chain[|chain| - 1].next == null
      && size == |chain| - 2
    }

    ghost predicate Valid()
      reads this, repr
    {
      Chained() && Holding(chain, contents) && Indexed(nodes, chain, R.Ids(contents))
    }

    constructor ()
      ensures Valid() && contents == [] && nodes == map[] && fresh(repr)
    {
      var head := new CacheEntry<V>.Sentinel();
      var tail := new CacheEntry<V>.Sentinel();
      head.next := tail;
      tail.prev := head;
      this.head, this.tail, size := head, tail, 0;
      chain, contents, nodes, repr := [head, tail], [], map[], {head, tail};
    }

    // The pointer surgery of AddToFront.
    method Link(entry: CacheEntry<V>)
      requires Chained() && entry !in chain
      modifies this`size, this`chain, this`repr, repr`prev, repr`next, entry`prev, entry`next
      ensures Chained() && chain == [head, entry] + old(chain)[1..] && repr == old(repr) + {entry}
    {
      ghost var was, now := chain, [head, entry] + chain[1..];
      AllApartAfterAdd(was, entry);
      assert head.next == was[1] && Apart(was, 0, 1);
      entry.prev := head;
      entry.next := head.next;
      head.next.prev := entry;
      head.next := entry;
      size := size + 1;
      chain, repr := now, repr + {entry};
      forall i | 2 <= i < |now| - 1 ensures now[i].next == now[i + 1] {
        assert now[i] == was[i - 1] && now[i + 1] == was[i] && Apart(was, 0, i - 1);
        assert old(was[i - 1].next) == was[i];
      }
      forall i | 2 < i < |now| ensures now[i].prev == now[i - 1] {
        assert now[i] == was[i - 1] && now[i - 1] == was[i - 2] && Apart(was, 1, i - 1);
      }
    }

    // The first half of Remove: the neighbours of an entry point past it.
    method Bypass(entry: CacheEntry<V>, ghost k: nat)
      requires Chained() && 0 < k < |chain| - 1 && chain[k] == entry
      modifies repr`prev, repr`next
      ensures Linked(R.Cut(chain, k)) && chain[0].prev == null && chain[|chain| - 1].next == null
    {
      ghost var was, now := chain, R.Cut(chain, k);
      assert entry.prev == was[k - 1] && entry.next == was[k + 1];
      assert Apart(was, k - 1, k) && Apart(was, k, k + 1) && Apart(was, k - 1, k + 1);
      if entry.prev != null {
        entry.prev.next := entry.next;
      }
      if entry.next != null {
        entry.next.prev := entry.prev;
      }
      forall i | 0 <= i < |now| - 1 ensures now[i].next == now[i + 1] {
        R.CutAt(was, k, i);
        R.CutAt(was, k, i + 1);
        assert i < k - 1 ==> Apart(was, i, k - 1);
        assert i >= k ==> Apart(was, k - 1, i + 1);
      }
      forall i | 0 < i < |now| ensures now[i].prev == now[i - 1] {
        R.CutAt(was, k, i);
        R.CutAt(was, k, i - 1);
        assert i < k ==> Apart(was, i, k + 1);
        assert i > k ==> Apart(was, k + 1, i + 1);
      }
    }

    // The pointer surgery of Remove.
    method Unlink(entry: CacheEntry<V>, ghost k: nat)
      requires Chained() && 0 < k < |chain| - 1 && chain[k] == entry
      modifies this`size, this`chain, repr`prev, repr`next
      ensures Chained() && chain == R.Cut(old(chain), k) && entry !in chain
    {
      ghost var now := R.Cut(chain, k);
      AllApartAfterCut(chain, k);
      Bypass(entry, k);
      entry.prev := null;
      entry.next := null;
      size := size - 1;
      chain := now;
    }

    method AddToFront(entry: CacheEntry<V>, ghost e: R.Entry<V>)
      requires Valid() && entry !in chain && entry.Holds(e) && e.id !in nodes
      modifies this, repr`prev, repr`next, entry`prev, entry`next
      ensures Valid() && contents == [e] + old(contents)
      ensures nodes == old(nodes)[e.id := entry] && repr == old(repr) + {entry}
    {
      ghost var now, more, index := [head, entry] + chain[1..], [e] + contents, nodes[e.id := entry];
      assert Indexed(index, now, R.Ids(more)) by {
        IndexedAfterAdd(nodes, chain, R.Ids(contents), entry, e.id);
        assert R.Ids(more) == [e.id] + R.Ids(contents);
      }
      assert Holding(now, more) by {
        HoldingAfterAdd(chain, contents, entry, e);
      }
      Link(entry);
      contents, nodes := more, index;
    }

    method Remove(entry: CacheEntry<V>, ghost k: nat)
      requires Valid() && k < |contents| && contents[k].id in nodes && nodes[contents[k].id] == entry
      modifies this, repr`prev, repr`next
      ensures Valid() && contents == R.Cut(old(contents), k) && entry !in chain
      ensures nodes == old(nodes) - {old(contents)[k].id} && repr == old(repr)
    {
      IndexedAfterCut(nodes, chain, R.Ids(contents), k);
      R.IdsOfCut(contents, k);
      HoldingAfterCut(chain, contents, k);
      ghost var now, left, rest := R.Cut(chain, k + 1), R.Cut(contents, k), nodes - {contents[k].id};
      Unlink(entry, k + 1);
      assert chain == now && Holding(now, left);
      contents, nodes := left, rest;
    }

    method MoveToFront(entry: CacheEntry<V>, ghost k: nat)
      requires Valid() && k < |contents| && contents[k].id in nodes && nodes[contents[k].id] == entry
      modifies this, repr`prev, repr`next
      ensures Valid() && contents == [old(contents)[k]] + R.Cut(old(contents), k)
      ensures nodes == old(nodes) && repr == old(repr)
    {
      ghost var e, was := contents[k], nodes;
      assert chain[k + 1].Holds(e) && chain[k + 1] == nodes[R.Ids(contents)[k]];
      Remove(entry, k);
      AddToFront(entry, e);
      assert nodes == was;
    }

    // Rewrites what one linked entry holds.
    method Refresh(entry: CacheEntry<V>, ghost k: nat, key: V, expiresAt: int, accessAt: int, hitCount: int)
      requires Valid() && k < |contents| && contents[k].id in nodes && nodes[contents[k].id] == entry
      modifies this`contents, entry`key, entry`expiresAt, entry`accessAt, entry`hitCount
      ensures Valid()
      ensures contents == old(contents)[k := R.Entry(old(contents)[k].id, key, expiresAt, accessAt, hitCount)]
    {
      ghost var e := R.Entry(contents[k].id, key, expiresAt, accessAt, hitCount);
      ghost var was := contents;
      assert chain[k + 1].Holds(was[k]) && chain[k + 1] == nodes[R.Ids(was)[k]];
      entry.Store(key, expiresAt, accessAt, hitCount);
      contents := was[k := e];
      assert R.Ids(contents) == R.Ids(was);
      forall i | 0 <= i < |contents| ensures chain[i + 1].Holds(contents[i]) {
        assert i < k ==> Apart(chain, i + 1, k + 1);
        assert i > k ==> Apart(chain, k + 1, i + 1);
        assert old(chain[i + 1].Holds(was[i]));
      }
      assert Chained() && Indexed(nodes, chain, R.Ids(contents));
    }

    // A use of a linked entry: rewritten, then moved to the front.
    method Touch(entry: CacheEntry<V>, ghost k: nat, key: V, expiresAt: int, accessAt: int, hitCount: int)
      requires Valid() && k < |contents| && contents[k].id in nodes && nodes[contents[k].id] == entry
      modifies this, repr
      ensures Valid() && nodes == old(nodes) && repr == old(repr)
      ensures contents == [R.Entry(old(contents)[k].id, key, expiresAt, accessAt, hitCount)] + R.Cut(old(contents), k)
    {
      ghost var was := contents;
      assert chain[k + 1] == nodes[R.Ids(contents)[k]];
      Refresh(entry, k, key, expiresAt, accessAt, hitCount);
      assert R.Cut(contents, k) == R.Cut(was, k);
      MoveToFront(entry, k);
    }
  }

  lemma FindsCached<V(0)>(lru: LRUList<V>, id: nat)
    requires lru.Valid()
    ensures var k := R.Index(lru.contents, id);
            && (id in lru.nodes <==> k < |lru.contents|)
            && (k < |lru.contents| ==>
                  && lru.contents[k].id == id && lru.chain[k + 1] == lru.nodes[id]
                  && lru.nodes[id].Holds(lru.contents[k]))
  {
    var k, ids := R.Index(lru.contents, id), R.Ids(lru.contents);
    R.IndexFinds(lru.contents, id);
    if id in lru.nodes {
      var i :| 0 <= i < |ids| && ids[i] == id;
      assert lru.contents[i].id == id;
    }
    if k < |ids| {
      assert ids[k] in lru.nodes;
    }
  }

  /** The tail's neighbour is the entry of the least recently used id, and of no other. */
  lemma LeastRecentlyUsed<V(0)>(lru: LRUList<V>)
    requires lru.Valid() && lru.contents != []
    ensures lru.tail.prev != null && lru.tail.prev != lru.head
    ensures var last := lru.contents[|lru.contents| - 1].id;
            last in lru.nodes && forall id :: id in lru.nodes && lru.nodes[id] == lru.tail.prev ==> id == last
    ensures var last := lru.contents[|lru.contents| - 1].id;
            && lru.nodes[last] == lru.tail.prev
            && R.Removed(lru.contents, last) == lru.contents[..|lru.contents| - 1]
  {
    DistinctIds(lru.contents);
    R.RemovedLast(lru.contents);
    var n := |lru.contents|;
    assert lru.chain[n + 1].prev == lru.chain[n];
    assert lru.nodes[R.Ids(lru.contents)[n - 1]] == lru.chain[(n - 1) + 1];
    assert Apart(lru.chain, 0, n);
    forall id | id in lru.nodes && lru.nodes[id] == lru.tail.prev
      ensures id == lru.contents[n - 1].id
    {
      var i :| 0 <= i < n && R.Ids(lru.contents)[i] == id;
      assert lru.chain[i + 1] == lru.chain[n];
    }
  }

  // ---------- The cache ----------

  /** The hit rate is kept as its two counters: it is recomputed whenever one of them changes. */
  datatype CacheStats = CacheStats(hits: nat, misses: nat, evictions: nat, size: nat)

  function HitRate(stats: CacheStats): real {
    var total := stats.hits + stats.misses;
    if total > 0 then stats.hits as real / total as real else 0.0
  }

  /** The rate is the share of hits among all lookups. */
  lemma HitRateIsShareOfHits(stats: CacheStats)
    ensures 0.0 <= HitRate(stats) <= 1.0
    ensures HitRate(stats) * (stats.hits + stats.misses) as real == stats.hits as real
    ensures stats.hits == 0 ==> HitRate(stats) == 0.0
  {
    var total := stats.hits + stats.misses;
    if total > 0 {
      QuotientBelowOne(stats.hits as real, total as real);
    }
  }

  lemma QuotientBelowOne(x: real, y: real)
    requires 0.0 <= x <= y && 0.0 < y
    ensures 0.0 <= x / y <= 1.0 && (x / y) * y == x
  {
  }

  lemma QuotientCompares(x: real, y: real, z: real)
    requires 0.0 < y
    ensures x / y < z <==> x < z * y
    ensures x / y > z <==> x > z * y
  {
    var q := x / y;
    assert x == q * y;
    if q < z {
      assert (z - q) * y > 0.0;
    } else if q > z {
      assert (q - z) * y > 0.0;
    }
  }

  function Counted(stats: CacheStats, hit: bool, size: nat): CacheStats {
    if hit then stats.(hits := stats.hits + 1, size := size) else stats.(misses := stats.misses + 1, size := size)
  }

  function WithEvictions(stats: CacheStats, evicted: nat, size: nat): CacheStats {
    stats.(evictions := stats.evictions + evicted, size := size)
  }

  class LocalKeyCache<V(0)> {
    var cache: map<nat, CacheEntry<V>>
    var lru: LRUList<V>
    var maxSize: int
    const ttl: int
    var stats: CacheStats

    /** The map's entries are exactly the linked ones, and all three sizes agree. */
    ghost predicate Valid()
      reads this, lru, lru.repr
    {
      lru.Valid() && cache == lru.nodes && stats.size == lru.size
    }

    /** The cached keys, most recently used first. */
    ghost function Contents(): seq<R.Entry<V>>
      reads this, lru
    {
      lru.contents
    }

    constructor (maxSize: int, ttl: int)
      ensures Valid() && fresh(lru) && fresh(lru.repr) && Contents() == []
      ensures this.maxSize == maxSize && this.ttl == ttl && stats == CacheStats(0, 0, 0, 0)
    {
      cache, this.maxSize, this.ttl := map[], maxSize, ttl;
      lru := new LRUList<V>();
      stats := CacheStats(0, 0, 0, 0);
    }

    method Clear()
      modifies this`cache, this`lru, this`stats
      ensures Valid() && fresh(lru) && fresh(lru.repr) && Contents() == []
      ensures stats == CacheStats(0, 0, 0, 0)
    {
      cache := map[];
      lru := new LRUList<V>();
      stats := CacheStats(0, 0, 0, 0);
    }

    // The branch of RemoveEntry for a cached key.
    method Drop(keyId: nat)
      requires Valid() && keyId in cache
      modifies this`cache, this`stats, lru, lru.repr`prev, lru.repr`next
      ensures Valid() && lru.repr == old(lru.repr)
      ensures Contents() == R.Removed(old(Contents()), keyId)
      ensures cache == old(cache) - {keyId} && stats == old(stats).(size := |cache|)
    {
      FindsCached(lru, keyId);
      var list, entry := lru, cache[keyId];
      list.Remove(entry, R.Index(list.contents, keyId));
      assert lru == list;
      cache := cache - {keyId};
      stats := stats.(size := |cache|);
    }

    method RemoveEntry(keyId: nat)
      requires Valid()
      modifies this`cache, this`stats, lru, lru.repr`prev, lru.repr`next
      ensures Valid() && lru.repr == old(lru.repr)
      ensures Contents() == R.Removed(old(Contents()), keyId)
      ensures cache == old(cache) - {keyId} && stats == old(stats).(size := |cache|)
    {
      FindsCached(lru, keyId);
      if keyId in cache {
        Drop(keyId);
      } else {
        assert cache - {keyId} == cache;
      }
    }

    method Remove(keyId: nat)
      requires Valid()
      modifies this`cache, this`stats, lru, lru.repr`prev, lru.repr`next
      ensures Valid() && lru.repr == old(lru.repr)
      ensures Contents() == R.Removed(old(Contents()), keyId)
    {
      RemoveEntry(keyId);
    }

    method EvictLRU()
      requires Valid()
      modifies this`cache, this`stats, lru, lru.repr`prev, lru.repr`next
      ensures Valid() && lru.repr == old(lru.repr)
      ensures Contents() == R.Evicted(old(Contents()))
      ensures |cache| == |Contents()| && forall id :: id in cache ==> id in old(cache)
      ensures stats == WithEvictions(old(stats), |old(Contents())| - |Contents()|, |Contents()|)
    {
      if lru.size == 0 {
        return;
      }
      EvictLast();
    }

    // The part of EvictLRU for a cache that is not empty.
    method EvictLast()
      requires Valid() && Contents() != []
      modifies this`cache, this`stats, lru, lru.repr`prev, lru.repr`next
      ensures Valid() && lru.repr == old(lru.repr)
      ensures Contents() == R.Evicted(old(Contents()))
      ensures |cache| == |Contents()| && forall id :: id in cache ==> id in old(cache)
      ensures stats == WithEvictions(old(stats), |old(Contents())| - |Contents()|, |Contents()|)
    {
      LeastRecentlyUsed(lru);
      var lastEntry := lru.tail.prev;
      if lastEntry == lru.head {
        return;
      }
      var keyIdToRemove := KeyOf(lastEntry, lru.contents[|lru.contents| - 1].id);
      if keyIdToRemove != 0 {
        Evict(keyIdToRemove);
      }
    }

    method Evict(keyId: nat)
      requires Valid() && keyId in cache
      modifies this`cache, this`stats, lru, lru.repr`prev, lru.repr`next
      ensures Valid() && lru.repr == old(lru.repr) && Contents() == R.Removed(old(Contents()), keyId)
      ensures cache == old(cache) - {keyId} && |cache| == |Contents()|
      ensures stats == WithEvictions(old(stats), 1, |Contents()|)
    {
      RemoveEntry(keyId);
      stats := stats.(evictions := stats.evictions + 1);
    }

    // The search of EvictLRU for the id of an entry.
    method KeyOf(entry: CacheEntry<V>, ghost id: nat) returns (keyId: nat)
      requires id in cache && forall k :: k in cache ==> (cache[k] == entry <==> k == id)
      ensures keyId == id
    {
      keyId := 0;
      var rest := cache.Keys;
      while rest != {}
        invariant rest <= cache.Keys && id in rest
      {
        keyId :| keyId in rest;
        if cache[keyId] == entry {
          return;
        }
        rest := rest - {keyId};
      }
    }

    // The branch of Get for an expired entry.
    method Expire(keyId: nat, ghost now: int)
      requires Valid() && keyId in cache && now > cache[keyId].expiresAt
      modifies this`cache, this`stats, lru, lru.repr`prev, lru.repr`next
      ensures Valid() && lru.repr == old(lru.repr)
      ensures R.Get(old(Contents()), keyId, now) == (None, Contents())
      ensures stats == Counted(old(stats), false, |Contents()|)
    {
      FindsCached(lru, keyId);
      RemoveEntry(keyId);
      stats := stats.(misses := stats.misses + 1);
    }

    // The branch of Get for an entry that is still good.
    method Hit(keyId: nat, now: int) returns (key: V)
      requires Valid() && keyId in cache && now <= cache[keyId].expiresAt
      modifies lru, lru.repr
      ensures Valid() && lru.repr == old(lru.repr)
      ensures R.Get(old(Contents()), keyId, now) == (Some(key), Contents())
    {
      var entry := cache[keyId];
      assert R.Get(Contents(), keyId, now) ==
             (Some(entry.key), [R.Entry(keyId, entry.key, entry.expiresAt, now, entry.hitCount + 1)]
                               + R.Cut(Contents(), R.Index(Contents(), keyId))) by {
        FindsCached(lru, keyId);
        R.GetHits(Contents(), keyId, now, Contents()[R.Index(Contents(), keyId)]);
      }
      key := entry.key;
      Use(keyId, key, entry.expiresAt, now, entry.hitCount + 1);
    }

    /** A hit returns the key and moves it to the front; an expired entry is removed and counts as a miss. */
    method Get(keyId: nat, now: int) returns (r: Option<V>)
      requires Valid()
      modifies this`cache, this`stats, lru, lru.repr
      ensures Valid() && lru.repr == old(lru.repr)
      ensures (r, Contents()) == R.Get(old(Contents()), keyId, now)
      ensures stats == Counted(old(stats), r.Some?, |Contents()|)
      ensures stats.hits == old(stats.hits) + (if r.Some? then 1 else 0)
      ensures stats.misses == old(stats.misses) + (if r.Some? then 0 else 1)
    {
      if keyId !in cache {
        FindsCached(lru, keyId);
        stats := stats.(misses := stats.misses + 1);
        return None;
      }
      r := GetCached(keyId, now);
    }

    method GetCached(keyId: nat, now: int) returns (r: Option<V>)
      requires Valid() && keyId in cache
      modifies this`cache, this`stats, lru, lru.repr
      ensures Valid() && lru.repr == old(lru.repr)
      ensures (r, Contents()) == R.Get(old(Contents()), keyId, now)
      ensures stats == Counted(old(stats), r.Some?, |Contents()|)
    {
      if now > cache[keyId].expiresAt {
        Expire(keyId, now);
        return None;
      }
      stats := stats.(hits := stats.hits + 1);
      var key := Hit(keyId, now);
      return Some(key);
    }

    // Rewrites a cached entry and moves it to the front.
    method Use(keyId: nat, key: V, expiresAt: int, accessAt: int, hitCount: int)
      requires Valid() && keyId in cache
      modifies lru, lru.repr
      ensures Valid() && lru.repr == old(lru.repr)
      ensures var k := R.Index(old(Contents()), keyId);
              && k < |old(Contents())|
              && Contents() == [R.Entry(keyId, key, expiresAt, accessAt, hitCount)] + R.Cut(old(Contents()), k)
    {
      FindsCached(lru, keyId);
      var list := lru;
      list.Touch(cache[keyId], R.Index(list.contents, keyId), key, expiresAt, accessAt, hitCount);
      assert lru == list;
    }

    /** Sets a key: an old one is refreshed in place, a new one may evict the least recently used. */
    method Set(keyId: nat, key: V, now: int)
      requires Valid()
      modifies this`cache, this`stats, lru, lru.repr
      ensures Valid() && fresh(lru.repr - old(lru.repr))
      ensures Contents() == R.Set(old(Contents()), keyId, key, now, ttl, maxSize)
      ensures stats == WithEvictions(old(stats), R.Evictions(old(Contents()), keyId, maxSize), |Contents()|)
      ensures stats.evictions - old(stats.evictions) ==
              |old(Contents())| + (if R.Has(old(Contents()), keyId) then 0 else 1) - |Contents()|
    {
      R.IndexFinds(Contents(), keyId);
      if keyId in cache {
        Refill(keyId, key, now);
        return;
      }
      FindsCached(lru, keyId);
      InsertBounded(keyId, key, now);
    }

    // The branch of Set for a cached key.
    method Refill(keyId: nat, key: V, now: int)
      requires Valid() && keyId in cache
      modifies lru, lru.repr
      ensures Valid() && lru.repr == old(lru.repr)
      ensures R.Index(old(Contents()), keyId) < |old(Contents())|
      ensures Contents() == R.Set(old(Contents()), keyId, key, now, ttl, maxSize) && stats.size == |Contents()|
    {
      FindsCached(lru, keyId);
      Use(keyId, key, now + ttl, now, cache[keyId].hitCount);
    }

    // The branch of Set for a new key.
    method InsertBounded(keyId: nat, key: V, now: int)
      requires Valid() && keyId !in cache
      modifies this`cache, this`stats, lru, lru.repr`prev, lru.repr`next
      ensures Valid() && fresh(lru.repr - old(lru.repr))
      ensures var s := old(Contents());
              var left := if |s| >= maxSize then R.Evicted(s) else s;
              && Contents() == [R.Entry(keyId, key, now + ttl, now, 0)] + left
              && stats == WithEvictions(old(stats), |s| - |left|, |left| + 1)
    {
      if |cache| >= maxSize {
        EvictLRU();
      }
      Insert(keyId, key, now);
    }

    // Links a new entry at the front and puts it into the map.
    method Insert(keyId: nat, key: V, now: int)
      requires Valid() && keyId !in cache
      modifies this`cache, this`stats, lru, lru.repr`prev, lru.repr`next
      ensures Valid() && fresh(lru.repr - old(lru.repr))
      ensures Contents() == [R.Entry(keyId, key, now + ttl, now, 0)] + old(Contents())
      ensures stats == old(stats).(size := |Contents()|)
    {
      var list := lru;
      var entry := new CacheEntry<V>(keyId, key, now + ttl, now);
      cache := cache[keyId := entry];
      list.AddToFront(entry, R.Entry(keyId, key, now + ttl, now, 0));
      assert lru == list;
      stats := stats.(size := |cache|);
    }

    method CollectExpired(now: int) returns (expired: seq<nat>)
      requires Valid()
      ensures R.Distinct(Contents()) && R.Marked(Contents(), now, expired)
    {
      expired := [];
      var rest := cache.Keys;
      while rest != {}
        invariant rest <= cache.Keys
        invariant forall id :: id in expired <==> id in cache && id !in rest && now > cache[id].expiresAt
      {
        var keyId :| keyId in rest;
        if now > cache[keyId].expiresAt {
          expired := expired + [keyId];
        }
        rest := rest - {keyId};
      }
      DistinctIds(lru.contents);
      forall k | 0 <= k < |lru.contents|
        ensures lru.contents[k].id in expired <==> R.Expired(lru.contents[k], now)
      {
        assert R.Ids(lru.contents)[k] in lru.nodes && lru.chain[k + 1].Holds(lru.contents[k]);
      }
    }

    /** Keeps exactly the entries that have not expired, in their old order. */
    method CleanupExpired(now: int)
      requires Valid()
      modifies this`cache, this`stats, lru, lru.repr`prev, lru.repr`next
      ensures Valid() && lru.repr == old(lru.repr)
      ensures Contents() == R.Cleaned(old(Contents()), now) && stats == old(stats).(size := |Contents()|)
    {
      var expired := CollectExpired(now);
      for i := 0 to |expired|
        invariant Valid() && lru.repr == old(lru.repr) && stats == old(stats).(size := |Contents()|)
        invariant R.Distinct(Contents()) && R.Marked(Contents(), now, expired[i..])
        invariant R.Cleaned(Contents(), now) == R.Cleaned(old(Contents()), now)
      {
        R.CleanStep(Contents(), now, expired[i..]);
        R.OperationsKeepDistinct(Contents(), expired[i], lru.head.key, now, ttl, maxSize);
        assert expired[i..][1..] == expired[i + 1..];
        RemoveEntry(expired[i]);
      }
      R.CleanedAll(Contents(), now);
    }

    /** Evicts until the capacity is met, which leaves the most recently used prefix. */
    method EvictDown()
      requires Valid() && R.Shrinkable(Contents(), maxSize)
      modifies this`cache, this`stats, lru, lru.repr`prev, lru.repr`next
      ensures Valid() && lru.repr == old(lru.repr)
      ensures Contents() == Shrunk(old(Contents()), maxSize) && |Contents()| <= maxSize
      ensures stats == WithEvictions(old(stats), |old(Contents())| - |Contents()|, |Contents()|)
    {
      ghost var s, m := Contents(), |Contents()|;
      assert s[..m] == s;
      while |cache| > maxSize
        invariant Valid() && lru.repr == old(lru.repr)
        invariant 0 <= m <= |s| && Contents() == s[..m] && |cache| == m
        invariant |s| <= maxSize ==> m == |s|
        invariant |s| > maxSize ==> maxSize <= m
        invariant stats == WithEvictions(old(stats), |s| - m, m)
        decreases m
      {
        R.EvictedPrefix(s, maxSize, m);
        EvictLRU();
        m := m - 1;
      }
    }
  }

  datatype AdaptiveConfig = AdaptiveConfig(minSize: int, maxSize: int, hitRateTarget: real, sizeAdjustStep: int)

  predicate Shrinks(config: AdaptiveConfig, rate: real, size: int) {
    rate >= config.hitRateTarget && rate > config.hitRateTarget + 0.1 && size - config.sizeAdjustStep >= config.minSize
  }

  /** The capacity after one adjustment. */
  function AdaptedSize(config: AdaptiveConfig, rate: real, size: int): int {
    if rate < config.hitRateTarget && size + config.sizeAdjustStep <= config.maxSize then size + config.sizeAdjustStep
    else if Shrinks(config, rate, size) then size - config.sizeAdjustStep
    else size
  }

  /**
   The capacity grows by the step, within its maximum, when the hits fall short of the target share of all
   lookups, and shrinks by it, within its minimum, when they exceed that share by more than a tenth.
   */
  ghost predicate FollowsHits(config: AdaptiveConfig, stats: CacheStats, size: int, size': int)
    requires stats.hits + stats.misses > 0
  {
    var hits, total := stats.hits as real, (stats.hits + stats.misses) as real;
    var grown, shrunk := size + config.sizeAdjustStep, size - config.sizeAdjustStep;
    size' == if hits < config.hitRateTarget * total then (if grown <= config.maxSize then grown else size)
             else if hits > (config.hitRateTarget + 0.1) * total && shrunk >= config.minSize then shrunk
             else size
  }

  lemma AdaptedSizeFollowsHits(config: AdaptiveConfig, stats: CacheStats, size: int)
    requires stats.hits + stats.misses > 0
    ensures FollowsHits(config, stats, size, AdaptedSize(config, HitRate(stats), size))
  {
    var hits, total := stats.hits as real, (stats.hits + stats.misses) as real;
    QuotientCompares(hits, total, config.hitRateTarget);
    QuotientCompares(hits, total, config.hitRateTarget + 0.1);
    assert config.hitRateTarget * total <= (config.hitRateTarget + 0.1) * total;
  }

  ghost predicate StaysInRange(config: AdaptiveConfig) {
    forall rate: real, size: int {:trigger AdaptedSize(config, rate, size)} ::
      0.0 <= rate <= 1.0 && config.minSize <= size <= config.maxSize ==>
        config.minSize <= AdaptedSize(config, rate, size) <= config.maxSize
  }

  /** No hit rate drives the capacity out of [minSize, maxSize], exactly when the step is not negative. */
  lemma AdaptedSizeStaysInRange(config: AdaptiveConfig)
    requires config.minSize <= config.maxSize
    ensures StaysInRange(config) <==> config.sizeAdjustStep >= 0
  {
    if config.sizeAdjustStep < 0 {
      if config.hitRateTarget > 0.0 {
        assert AdaptedSize(config, 0.0, config.minSize) < config.minSize;
      } else {
        assert AdaptedSize(config, 1.0, config.maxSize) > config.maxSize;
      }
    }
  }

  /** What a shrinking step keeps. */
  function Shrunk<V>(s: seq<R.Entry<V>>, size: int): seq<R.Entry<V>> {
    if 0 <= size < |s| then s[..size] else s
  }

  class AdaptiveCache<V(0)> {
    const local: LocalKeyCache<V>
    const config: AdaptiveConfig

    constructor (config: AdaptiveConfig, ttl: int)
      ensures local.Valid() && local.Contents() == [] && local.maxSize == config.minSize
      ensures fresh(local) && fresh(local.lru) && fresh(local.lru.repr) && this.config == config
    {
      local := new LocalKeyCache<V>(config.minSize, ttl);
      this.config := config;
    }

    /**
     Adjusts the capacity to the hit rate.  When it shrinks, the most recently used prefix stays; the
     loop ends because every entry past the new capacity can be evicted (see `Recency.ShrinkingEnds`).
     */
    method AdaptSize()
      requires local.Valid()
      requires Shrinks(config, HitRate(local.stats), local.maxSize) ==>
                 R.Shrinkable(local.Contents(), local.maxSize - config.sizeAdjustStep)
      modifies local`cache, local`stats, local`maxSize, local.lru, local.lru.repr`prev, local.lru.repr`next
      ensures local.Valid() && local.lru.repr == old(local.lru.repr)
      ensures local.maxSize == AdaptedSize(config, HitRate(old(local.stats)), old(local.maxSize))
      ensures old(local.stats.hits + local.stats.misses) > 0 ==>
                FollowsHits(config, old(local.stats), old(local.maxSize), local.maxSize)
      ensures local.Contents() == if Shrinks(config, HitRate(old(local.stats)), old(local.maxSize))
                                  then Shrunk(old(local.Contents()), local.maxSize) else old(local.Contents())
      ensures local.maxSize < old(local.maxSize) && Shrinks(config, HitRate(old(local.stats)), old(local.maxSize)) ==>
                |local.Contents()| <= local.maxSize
      ensures local.stats ==
              WithEvictions(old(local.stats), |old(local.Contents())| - |local.Contents()|, |local.Contents()|)
    {
      if local.stats.hits + local.stats.misses > 0 {
        AdaptedSizeFollowsHits(config, local.stats, local.maxSize);
      }
      var rate := HitRate(local.stats);
      if rate < config.hitRateTarget {
        var newSize := local.maxSize + config.sizeAdjustStep;
        if newSize <= config.maxSize {
          local.maxSize := newSize;
        }
      } else if rate > config.hitRateTarget + 0.1 {
        var newSize := local.maxSize - config.sizeAdjustStep;
        if newSize >= config.minSize {
          local.maxSize := newSize;
          local.EvictDown();
        }
      }
    }
  }
}
