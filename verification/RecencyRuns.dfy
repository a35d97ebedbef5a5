/** Whole runs of the key cache: reads that fill it, sets, removals and clean-ups, in any order. */
module RecencyRuns {
  import opened Wrappers
  import opened Lists
  import opened Recency

  datatype Step<V> =
    | Read(id: nat, key: V, now: int)  // a read that fills the cache with `key` when it misses
    | Put(id: nat, key: V, now: int)
    | Drop(id: nat)
    | Clean(now: int)

  predicate Uses<V>(u: Step<V>) {
    u.Read? || u.Put?
  }

  function Stepped<V>(s: seq<Entry<V>>, u: Step<V>, ttl: int, maxSize: int): seq<Entry<V>> {
    match u
    case Read(id, key, now) =>
      var (hit, t) := Get(s, id, now);
      if hit.Some? then t else Set(t, id, key, now, ttl, maxSize)
    case Put(id, key, now) => Set(s, id, key, now, ttl, maxSize)
    case Drop(id) => Removed(s, id)
    case Clean(now) => Cleaned(s, now)
  }

  function Run<V>(steps: seq<Step<V>>, ttl: int, maxSize: int): seq<Entry<V>> {
    if steps == [] then []
    else Stepped(Run(steps[..|steps| - 1], ttl, maxSize), steps[|steps| - 1], ttl, maxSize)
  }

  /** All ids used so far, most recently used first. */
  function LastUsed<V>(steps: seq<Step<V>>): seq<nat> {
    if steps == [] then []
    else
      var before, u := LastUsed(steps[..|steps| - 1]), steps[|steps| - 1];
      if Uses(u) then [u.id] + Without(before, u.id) else before
  }

  function Take(ids: seq<nat>, n: nat): seq<nat> {
    if n < |ids| then ids[..n] else ids
  }

  predicate NoZero<V>(steps: seq<Step<V>>) {
    forall i :: 0 <= i < |steps| && Uses(steps[i]) ==> steps[i].id != 0
  }

  lemma {:induction false} LastUsedUnique<V>(steps: seq<Step<V>>)
    requires NoZero(steps)
    ensures NoDuplicates(LastUsed(steps)) && 0 !in LastUsed(steps)
  {
    if steps != [] {
      var before, u := LastUsed(steps[..|steps| - 1]), steps[|steps| - 1];
      LastUsedUnique(steps[..|steps| - 1]);
      if Uses(u) {
        WithoutMembers(before, u.id);
        FrontUnique(u.id, Without(before, u.id));
      }
    }
  }

  lemma FrontUnique<T>(x: T, rest: seq<T>)
    requires x !in rest && NoDuplicates(rest)
    ensures NoDuplicates([x] + rest)
  {
    var s := [x] + rest;
    forall i, j | 0 <= i < j < |s| ensures s[i] != s[j] {
      assert s[j] == rest[j - 1] && rest[j - 1] in rest;
    }
  }

  // ---------- Reads and sets only: exactly the most recently used ----------

  // What using an id does to a cache of ids that holds at most n.
  function Touched(kept: seq<nat>, id: nat, n: nat): seq<nat>
    requires n > 0
  {
    [id] + if id in kept then Without(kept, id) else if |kept| >= n then kept[..|kept| - 1] else kept
  }

  // Using an id moves it to the front of the recency order and of its first n alike.
  lemma TouchTake(order: seq<nat>, id: nat, n: nat)
    requires 0 < n && NoDuplicates(order)
    ensures Take([id] + Without(order, id), n) == Touched(Take(order, n), id, n)
  {
    if id in order {
      var k :| 0 <= k < |order| && order[k] == id;
      WithoutSplit(order, k);
      if k < n {
        TouchKept(order, k, n);
      } else {
        assert id !in Take(order, n);
      }
    } else {
      WithoutAbsent(order, id);
    }
  }

  lemma TouchKept(order: seq<nat>, k: nat, n: nat)
    requires k < |order| && k < n && NoDuplicates(order)
    ensures Take([order[k]] + (order[..k] + order[k + 1..]), n) == Touched(Take(order, n), order[k], n)
  {
    var kept := Take(order, n);
    assert kept[k] == order[k];
    WithoutSplit(kept, k);
  }

  /** The cached keys are distinct, within the bound, and none has id 0. */
  predicate Sound<V>(s: seq<Entry<V>>, n: nat) {
    Distinct(s) && |s| <= n && forall i :: 0 <= i < |s| ==> s[i].id != 0
  }

  lemma FrontIds<V>(e: Entry<V>, s: seq<Entry<V>>)
    ensures Ids([e] + s) == [e.id] + Ids(s)
  {
  }

  lemma CutIds<V>(s: seq<Entry<V>>, k: nat)
    requires Distinct(s) && k < |s|
    ensures s[k].id in Ids(s) && Ids(Cut(s, k)) == Without(Ids(s), s[k].id)
  {
    assert Ids(s)[k] == s[k].id;
    IdsOfCut(s, k);
    WithoutSplit(Ids(s), k);
  }

  lemma HasIsIn<V>(s: seq<Entry<V>>, id: nat)
    ensures Has(s, id) <==> id in Ids(s)
  {
    if Has(s, id) {
      var i :| 0 <= i < |s| && s[i].id == id;
      assert Ids(s)[i] == id;
    }
  }

  lemma SetIds<V>(s: seq<Entry<V>>, id: nat, key: V, now: int, ttl: int, n: nat)
    requires Sound(s, n) && 0 < n
    ensures Ids(Set(s, id, key, now, ttl, n)) == Touched(Ids(s), id, n)
  {
    var k := Index(s, id);
    IndexFinds(s, id);
    HasIsIn(s, id);
    if k < |s| {
      CutIds(s, k);
      FrontIds(s[k].(key := key, expiresAt := now + ttl, accessAt := now), Cut(s, k));
    } else if |s| >= n {
      assert Ids(Evicted(s)) == Ids(s)[..|s| - 1];
      FrontIds(Entry(id, key, now + ttl, now, 0), Evicted(s));
    } else {
      FrontIds(Entry(id, key, now + ttl, now, 0), s);
    }
  }

  lemma ExpiredIds<V>(s: seq<Entry<V>>, k: nat, key: V, now: int, ttl: int, n: nat)
    requires Sound(s, n) && 0 < n && k < |s|
    ensures Ids(Set(Cut(s, k), s[k].id, key, now, ttl, n)) == Touched(Ids(s), s[k].id, n)
  {
    CutIds(s, k);
    CutDistinct(s, k);
    IndexFinds(Cut(s, k), s[k].id);
    FrontIds(Entry(s[k].id, key, now + ttl, now, 0), Cut(s, k));
  }

  // An expired entry is removed and filled again, so it too moves to the front.
  lemma UseIds<V>(s: seq<Entry<V>>, u: Step<V>, ttl: int, n: nat)
    requires Sound(s, n) && 0 < n && Uses(u)
    ensures Ids(Stepped(s, u, ttl, n)) == Touched(Ids(s), u.id, n)
  {
    var k := Index(s, u.id);
    IndexFinds(s, u.id);
    if u.Put? || k == |s| {
      SetIds(s, u.id, u.key, u.now, ttl, n);
    } else if Expired(s[k], u.now) {
      ExpiredIds(s, k, u.key, u.now, ttl, n);
    } else {
      CutIds(s, k);
      FrontIds(s[k].(accessAt := u.now, hitCount := s[k].hitCount + 1), Cut(s, k));
    }
  }

  predicate OnlyUses<V>(steps: seq<Step<V>>) {
    forall i :: 0 <= i < |steps| ==> Uses(steps[i])
  }

  lemma TakenAreSound<V>(steps: seq<Step<V>>, s: seq<Entry<V>>, n: nat)
    requires NoZero(steps) && Ids(s) == Take(LastUsed(steps), n)
    ensures Sound(s, n)
  {
    LastUsedUnique(steps);
    forall i | 0 <= i < |s| ensures s[i].id == LastUsed(steps)[i] != 0 {
      assert s[i].id == Ids(s)[i] && LastUsed(steps)[i] in LastUsed(steps);
    }
  }

  /**
   After any run of fill-on-miss reads and sets, the cache holds exactly the maxSize most recently used
   ids, in that order, however many of its entries expired on the way.
   */
  lemma {:induction false} CacheHoldsTheMostRecent<V>(steps: seq<Step<V>>, ttl: int, maxSize: nat)
    requires 0 < maxSize && NoZero(steps) && OnlyUses(steps)
    ensures Ids(Run(steps, ttl, maxSize)) == Take(LastUsed(steps), maxSize)
  {
    if steps != [] {
      var before, u := steps[..|steps| - 1], steps[|steps| - 1];
      CacheHoldsTheMostRecent(before, ttl, maxSize);
      TakenAreSound(before, Run(before, ttl, maxSize), maxSize);
      LastUsedUnique(before);
      UseIds(Run(before, ttl, maxSize), u, ttl, maxSize);
      TouchTake(LastUsed(before), u.id, maxSize);
    }
  }

  // ---------- What every entry is ----------

  /** The step that filled the cache with `id` last: a set, or a read that missed; none once it is removed. */
  function LastFill<V>(steps: seq<Step<V>>, id: nat, ttl: int, n: nat): Option<Step<V>> {
    if steps == [] then None
    else
      var before, u := steps[..|steps| - 1], steps[|steps| - 1];
      if u.Put? && u.id == id then Some(u)
      else if u.Read? && u.id == id && Get(Run(before, ttl, n), id, u.now).0 == None then Some(u)
      else if u.Drop? && u.id == id then None
      else LastFill(before, id, ttl, n)
  }

  predicate WithinTtl<V>(fill: Option<Step<V>>, now: int, ttl: int) {
    fill.Some? && Uses(fill.value) && now <= fill.value.now + ttl
  }

  /** The clock of the step that used the id last. */
  function LastUse<V>(steps: seq<Step<V>>, id: nat): Option<int> {
    if steps == [] then None
    else
      var u := steps[|steps| - 1];
      if Uses(u) && u.id == id then Some(u.now) else LastUse(steps[..|steps| - 1], id)
  }

  /** How often reads hit the id since it came into the cache. */
  function Hits<V>(steps: seq<Step<V>>, id: nat, ttl: int, n: nat): nat {
    if steps == [] then 0
    else
      var before, u := steps[..|steps| - 1], steps[|steps| - 1];
      var s, hits := Run(before, ttl, n), Hits(before, id, ttl, n);
      if u.Read? && u.id == id then (if Get(s, id, u.now).0.Some? then hits + 1 else 0)
      else if u.Put? && u.id == id && !Has(s, id) then 0
      else hits
  }

  /** The entry is what its last fill made it, and tells its last use and its hits. */
  ghost predicate Explained<V>(steps: seq<Step<V>>, e: Entry<V>, ttl: int, n: nat) {
    var fill := LastFill(steps, e.id, ttl, n);
    fill.Some? && Uses(fill.value) && e.key == fill.value.key && e.expiresAt == fill.value.now + ttl
    && LastUse(steps, e.id) == Some(e.accessAt) && e.hitCount == Hits(steps, e.id, ttl, n)
  }

  ghost predicate AllExplained<V>(steps: seq<Step<V>>, s: seq<Entry<V>>, ttl: int, n: nat) {
    forall i :: 0 <= i < |s| ==> Explained(steps, s[i], ttl, n)
  }

  lemma CutEntry<V>(s: seq<Entry<V>>, k: nat, i: nat)
    requires Distinct(s) && k < |s| && i < |s| - 1
    ensures Cut(s, k)[i] in s && Cut(s, k)[i].id != s[k].id
  {
    CutAt(s, k, i);
  }

  lemma SetEntry<V>(s: seq<Entry<V>>, id: nat, key: V, now: int, ttl: int, n: nat, i: nat)
    requires Distinct(s) && 0 < i < |Set(s, id, key, now, ttl, n)|
    ensures var e := Set(s, id, key, now, ttl, n)[i]; e in s && e.id != id
  {
    IndexFinds(s, id);
    if Has(s, id) {
      CutEntry(s, Index(s, id), i - 1);
    } else {
      assert Set(s, id, key, now, ttl, n)[i] == s[i - 1];
    }
  }

  lemma ReadEntry<V>(s: seq<Entry<V>>, u: Step<V>, ttl: int, n: nat, i: nat)
    requires Distinct(s) && u.Read? && 0 < i < |Stepped(s, u, ttl, n)|
    ensures var e := Stepped(s, u, ttl, n)[i]; e in s && e.id != u.id
  {
    IndexFinds(s, u.id);
    var k := Index(s, u.id);
    if k == |s| {
      SetEntry(s, u.id, u.key, u.now, ttl, n, i);
    } else if Expired(s[k], u.now) {
      CutDistinct(s, k);
      SetEntry(Cut(s, k), u.id, u.key, u.now, ttl, n, i);
      var j :| 0 <= j < |s| - 1 && Cut(s, k)[j] == Stepped(s, u, ttl, n)[i];
      CutEntry(s, k, j);
    } else {
      CutEntry(s, k, i - 1);
    }
  }

  /** What stands in the cache after a step stood there before, but for a key used now, which stands in front. */
  lemma StepEntry<V>(s: seq<Entry<V>>, u: Step<V>, ttl: int, n: nat, i: nat)
    requires Distinct(s) && i < |Stepped(s, u, ttl, n)| && (Uses(u) ==> 0 < i)
    ensures var e := Stepped(s, u, ttl, n)[i]; e in s && (!u.Clean? ==> e.id != u.id)
  {
    match u
    case Read(_, _, _) => ReadEntry(s, u, ttl, n, i);
    case Put(id, key, now) => SetEntry(s, id, key, now, ttl, n, i);
    case Drop(id) =>
      IndexFinds(s, id);
      if Has(s, id) {
        CutEntry(s, Index(s, id), i);
      } else {
        assert s[i] in s;
      }
    case Clean(now) =>
      CleanedEntry(s, now, i);
  }

  lemma CleanedEntry<V>(s: seq<Entry<V>>, now: int, i: nat)
    requires i < |Cleaned(s, now)|
    ensures Cleaned(s, now)[i] in s
  {
    CleanedEntries(s, now);
    var e := Cleaned(s, now)[i];
    assert e in Cleaned(s, now);
  }

  lemma FrontExplained<V>(steps: seq<Step<V>>, ttl: int, n: nat)
    requires |steps| > 0 && Uses(steps[|steps| - 1])
    requires var before := steps[..|steps| - 1]; var s := Run(before, ttl, n);
             Distinct(s) && AllExplained(before, s, ttl, n)
    ensures |Run(steps, ttl, n)| > 0 && Explained(steps, Run(steps, ttl, n)[0], ttl, n)
  {
    var before, u := steps[..|steps| - 1], steps[|steps| - 1];
    var s := Run(before, ttl, n);
    IndexFinds(s, u.id);
    var k := Index(s, u.id);
    if k < |s| {
      CutDistinct(s, k);
      IndexFinds(Cut(s, k), u.id);
      assert Explained(before, s[k], ttl, n);
    }
  }

  lemma {:induction false} RunExplained<V>(steps: seq<Step<V>>, ttl: int, n: nat)
    ensures Distinct(Run(steps, ttl, n)) && AllExplained(steps, Run(steps, ttl, n), ttl, n)
  {
    if |steps| > 0 {
      var before, u := steps[..|steps| - 1], steps[|steps| - 1];
      var s, t := Run(before, ttl, n), Run(steps, ttl, n);
      RunExplained(before, ttl, n);
      StepDistinct(s, u, ttl, n);
      forall i | 0 <= i < |t| ensures Explained(steps, t[i], ttl, n) {
        if i == 0 && Uses(u) {
          FrontExplained(steps, ttl, n);
        } else {
          StepEntry(s, u, ttl, n, i);
          var j :| 0 <= j < |s| && s[j] == t[i];
          assert Explained(before, s[j], ttl, n);
        }
      }
    }
  }

  lemma StepDistinct<V>(s: seq<Entry<V>>, u: Step<V>, ttl: int, n: nat)
    requires Distinct(s)
    ensures Distinct(Stepped(s, u, ttl, n))
  {
    match u
    case Read(id, key, now) =>
      OperationsKeepDistinct(s, id, key, now, ttl, n);
      OperationsKeepDistinct(Get(s, id, now).1, id, key, now, ttl, n);
    case Put(id, key, now) => OperationsKeepDistinct(s, id, key, now, ttl, n);
    case Drop(id) =>
      IndexFinds(s, id);
      if Index(s, id) < |s| {
        CutDistinct(s, Index(s, id));
      }
    case Clean(now) => CleanedDistinct(s, now);
  }

  lemma {:induction false} CleanedDistinct<V>(s: seq<Entry<V>>, now: int)
    requires Distinct(s)
    ensures Distinct(Cleaned(s, now))
  {
    if s != [] {
      var rest, n := Cleaned(s[..|s| - 1], now), |s| - 1;
      CleanedDistinct(s[..n], now);
      forall i | 0 <= i < |rest| ensures rest[i].id != s[n].id {
        assert rest[i] in rest;
        CleanedEntry(s[..n], now, i);
        var j :| 0 <= j < n && s[..n][j] == rest[i];
      }
    }
  }

  /** In any run a hit returns what the last fill brought, within its TTL. */
  lemma HitsReturnTheLastFill<V>(steps: seq<Step<V>>, id: nat, now: int, ttl: int, n: nat)
    requires Get(Run(steps, ttl, n), id, now).0.Some?
    ensures var fill := LastFill(steps, id, ttl, n);
            && WithinTtl(fill, now, ttl)
            && Get(Run(steps, ttl, n), id, now).0 == Some(fill.value.key)
  {
    var s := Run(steps, ttl, n);
    RunExplained(steps, ttl, n);
    IndexFinds(s, id);
    assert Explained(steps, s[Index(s, id)], ttl, n);
  }

  /** A read finds an entry that is cached and has not expired. */
  lemma CachedIsHit<V>(steps: seq<Step<V>>, id: nat, now: int, ttl: int, n: nat)
    requires Has(Run(steps, ttl, n), id) && WithinTtl(LastFill(steps, id, ttl, n), now, ttl)
    ensures Get(Run(steps, ttl, n), id, now).0 == Some(LastFill(steps, id, ttl, n).value.key)
  {
    var s := Run(steps, ttl, n);
    RunExplained(steps, ttl, n);
    IndexFinds(s, id);
    assert Explained(steps, s[Index(s, id)], ttl, n);
  }

  // ---------- Reads and sets only: exactly which reads hit ----------

  /**
   The use that filled `id` last, told without the cache: a set always fills, a read does when the id was
   not among the n most recently used or its last fill was past the TTL.
   */
  function Filled<V>(steps: seq<Step<V>>, id: nat, ttl: int, n: nat): Option<Step<V>> {
    if steps == [] then None
    else
      var before, u := steps[..|steps| - 1], steps[|steps| - 1];
      var fill := Filled(before, id, ttl, n);
      if Uses(u) && u.id == id
         && (u.Put? || !(id in Take(LastUsed(before), n) && WithinTtl(fill, u.now, ttl)))
      then Some(u) else fill
  }

  /**
   After any run of reads and sets, a read hits exactly when its id is among the maxSize most recently
   used and was last filled within the TTL, and it returns what that fill brought.
   */
  lemma {:induction false} HitsAreRecentAndFresh<V>(steps: seq<Step<V>>, id: nat, now: int, ttl: int, maxSize: nat)
    requires 0 < maxSize && NoZero(steps) && OnlyUses(steps)
    ensures var fill := Filled(steps, id, ttl, maxSize);
            Get(Run(steps, ttl, maxSize), id, now).0 ==
            if id in Take(LastUsed(steps), maxSize) && WithinTtl(fill, now, ttl) then Some(fill.value.key) else None
    decreases |steps|, 1
  {
    var s := Run(steps, ttl, maxSize);
    FilledIsLastFill(steps, id, ttl, maxSize);
    CacheHoldsTheMostRecent(steps, ttl, maxSize);
    HasIsIn(s, id);
    if Get(s, id, now).0.Some? {
      IndexFinds(s, id);
      HitsReturnTheLastFill(steps, id, now, ttl, maxSize);
    } else if Has(s, id) && WithinTtl(Filled(steps, id, ttl, maxSize), now, ttl) {
      CachedIsHit(steps, id, now, ttl, maxSize);
    }
  }

  lemma {:induction false} FilledIsLastFill<V>(steps: seq<Step<V>>, id: nat, ttl: int, n: nat)
    requires 0 < n && NoZero(steps) && OnlyUses(steps)
    ensures Filled(steps, id, ttl, n) == LastFill(steps, id, ttl, n)
    decreases |steps|, 0
  {
    if steps != [] {
      var before, u := steps[..|steps| - 1], steps[|steps| - 1];
      FilledIsLastFill(before, id, ttl, n);
      HitsAreRecentAndFresh(before, id, u.now, ttl, n);
    }
  }

  // ---------- Any run: order, bound, and which keys must hit ----------

  /** The elements of `a` stand in `b`, in the order they have in `a`. */
  predicate Follows(a: seq<nat>, b: seq<nat>)
    decreases |b|
  {
    || a == []
    || (&& b != []
        && var rest := b[..|b| - 1];
           Follows(a, rest) || (a[|a| - 1] == b[|b| - 1] && Follows(a[..|a| - 1], rest)))
  }

  lemma {:induction false} FollowsItself(a: seq<nat>)
    ensures Follows(a, a)
  {
    if a != [] {
      FollowsItself(a[..|a| - 1]);
    }
  }

  lemma {:induction false} FollowsTransitively(a: seq<nat>, b: seq<nat>, c: seq<nat>)
    requires Follows(a, b) && Follows(b, c)
    ensures Follows(a, c)
    decreases |c|
  {
    if a != [] {
      var rest := c[..|c| - 1];
      if Follows(b, rest) {
        FollowsTransitively(a, b, rest);
      } else if Follows(a, b[..|b| - 1]) {
        FollowsTransitively(a, b[..|b| - 1], rest);
      } else {
        FollowsTransitively(a[..|a| - 1], b[..|b| - 1], rest);
      }
    }
  }

  lemma {:induction false} FollowsWithout(a: seq<nat>, b: seq<nat>, x: nat)
    requires Follows(a, b)
    ensures Follows(Without(a, x), Without(b, x))
    decreases |b|
  {
    if a != [] {
      var rest := b[..|b| - 1];
      if Follows(a, rest) {
        FollowsWithout(a, rest, x);
        FollowsMore(Without(a, x), Without(rest, x), b[|b| - 1]);
      } else {
        FollowsWithout(a[..|a| - 1], rest, x);
        FollowsMore(Without(a[..|a| - 1], x), Without(rest, x), b[|b| - 1]);
      }
    }
  }

  lemma FollowsMore(a: seq<nat>, b: seq<nat>, x: nat)
    requires Follows(a, b)
    ensures Follows(a, b + [x]) && Follows(a + [x], b + [x])
  {
    assert (b + [x])[..|b|] == b && (a + [x])[..|a|] == a;
  }

  lemma {:induction false} FollowsFront(a: seq<nat>, b: seq<nat>, x: nat)
    requires Follows(a, b)
    ensures Follows([x] + a, [x] + b)
    decreases |b|
  {
    if a == [] {
      FollowsOne(x, b);
      assert [x] + a == [x];
    } else {
      var rest := b[..|b| - 1];
      assert [x] + b == ([x] + rest) + [b[|b| - 1]];
      if Follows(a, rest) {
        FollowsFront(a, rest, x);
        FollowsMore([x] + a, [x] + rest, b[|b| - 1]);
      } else {
        assert [x] + a == ([x] + a[..|a| - 1]) + [a[|a| - 1]];
        FollowsFront(a[..|a| - 1], rest, x);
        FollowsMore([x] + a[..|a| - 1], [x] + rest, b[|b| - 1]);
      }
    }
  }

  lemma {:induction false} FollowsOne(x: nat, b: seq<nat>)
    ensures Follows([x], [x] + b)
  {
    if b == [] {
      FollowsItself([x]);
    } else {
      assert [x] + b == ([x] + b[..|b| - 1]) + [b[|b| - 1]];
      FollowsOne(x, b[..|b| - 1]);
      FollowsMore([x], [x] + b[..|b| - 1], b[|b| - 1]);
    }
  }

  lemma WithoutFollows(a: seq<nat>, x: nat)
    ensures Follows(Without(a, x), a)
  {
    if a != [] {
      WithoutFollows(a[..|a| - 1], x);
      FollowsMore(Without(a[..|a| - 1], x), a[..|a| - 1], a[|a| - 1]);
    }
  }

  lemma AllButLastFollow(a: seq<nat>)
    requires a != []
    ensures Follows(a[..|a| - 1], a)
  {
    FollowsItself(a[..|a| - 1]);
  }

  lemma {:induction false} CleanedFollow<V>(s: seq<Entry<V>>, now: int)
    ensures Follows(Ids(Cleaned(s, now)), Ids(s))
  {
    if s != [] {
      var rest, e := s[..|s| - 1], s[|s| - 1];
      CleanedFollow(rest, now);
      assert Ids(s) == Ids(rest) + [e.id];
      assert Ids(Cleaned(rest, now) + [e]) == Ids(Cleaned(rest, now)) + [e.id];
      FollowsMore(Ids(Cleaned(rest, now)), Ids(rest), e.id);
    }
  }

  /** The last of n+1 elements that stand in `b` in order is not among the first n of `b`. */
  lemma {:induction false} LastStandsFar(a: seq<nat>, b: seq<nat>)
    requires a != [] && Follows(a, b) && NoDuplicates(b)
    ensures |a| <= |b| && forall i :: 0 <= i < |a| - 1 ==> b[i] != a[|a| - 1]
    decreases |b|
  {
    var rest := b[..|b| - 1];
    if Follows(a, rest) {
      LastStandsFar(a, rest);
    } else if |a| > 1 {
      LastStandsFar(a[..|a| - 1], rest);
    }
  }

  lemma UseFollows(ids: seq<nat>, order: seq<nat>, id: nat, n: nat)
    requires 0 < n && Follows(ids, order)
    ensures Follows(Touched(ids, id, n), [id] + Without(order, id))
    ensures id !in ids ==> Follows([id] + ids, [id] + Without(order, id))
  {
    FollowsWithout(ids, order, id);
    if id in ids {
      FollowsFront(Without(ids, id), Without(order, id), id);
    } else {
      WithoutAbsent(ids, id);
      FollowsFront(ids, Without(order, id), id);
      if |ids| >= n {
        AllButLastFollow(ids);
        FollowsTransitively(ids[..|ids| - 1], ids, Without(order, id));
        FollowsFront(ids[..|ids| - 1], Without(order, id), id);
      }
    }
  }

  lemma DropFollows<V>(s: seq<Entry<V>>, id: nat, n: nat)
    requires Sound(s, n)
    ensures Sound(Removed(s, id), n) && Follows(Ids(Removed(s, id)), Ids(s))
  {
    IndexFinds(s, id);
    var k := Index(s, id);
    if k < |s| {
      CutDistinct(s, k);
      IdsOfCut(s, k);
      WithoutSplit(Ids(s), k);
      WithoutFollows(Ids(s), Ids(s)[k]);
      forall i | 0 <= i < |s| - 1 ensures Cut(s, k)[i].id != 0 {
        CutAt(s, k, i);
      }
    } else {
      FollowsItself(Ids(s));
    }
  }

  lemma CleanSound<V>(s: seq<Entry<V>>, now: int, n: nat)
    requires Sound(s, n)
    ensures Sound(Cleaned(s, now), n)
  {
    var t := Cleaned(s, now);
    CleanedDistinct(s, now);
    CleanedEntries(s, now);
    CleanedShorter(s, now);
    forall i | 0 <= i < |t| ensures t[i].id != 0 {
      assert t[i] in t;
    }
  }

  lemma CleanedShorter<V>(s: seq<Entry<V>>, now: int)
    ensures |Cleaned(s, now)| <= |s|
  {
  }

  lemma UseSound<V>(s: seq<Entry<V>>, u: Step<V>, ttl: int, n: nat)
    requires Sound(s, n) && 0 < n && Uses(u) && u.id != 0
    ensures Sound(Stepped(s, u, ttl, n), n)
  {
    var t := Stepped(s, u, ttl, n);
    UseIds(s, u, ttl, n);
    StepDistinct(s, u, ttl, n);
    WithoutShorter(Ids(s), u.id);
    forall i | 0 <= i < |t| ensures t[i].id != 0 {
      if i == 0 {
        assert t[0].id == Ids(t)[0];
      } else {
        StepEntry(s, u, ttl, n, i);
      }
    }
  }

  lemma WithoutShorter(a: seq<nat>, x: nat)
    ensures |Without(a, x)| <= |a| - if x in a then 1 else 0
  {
  }

  /**
   In any run, whatever is removed, cleaned or set in between, the cached ids are distinct, at most
   maxSize, and stand in the order of their last use.
   */
  lemma {:induction false} CachedInOrderOfUse<V>(steps: seq<Step<V>>, ttl: int, maxSize: nat)
    requires 0 < maxSize && NoZero(steps)
    ensures Sound(Run(steps, ttl, maxSize), maxSize)
    ensures Follows(Ids(Run(steps, ttl, maxSize)), LastUsed(steps))
  {
    if steps != [] {
      var before, u := steps[..|steps| - 1], steps[|steps| - 1];
      var s, t := Run(before, ttl, maxSize), Run(steps, ttl, maxSize);
      CachedInOrderOfUse(before, ttl, maxSize);
      if Uses(u) {
        UseIds(s, u, ttl, maxSize);
        UseSound(s, u, ttl, maxSize);
        UseFollows(Ids(s), LastUsed(before), u.id, maxSize);
      } else {
        if u.Drop? {
          DropFollows(s, u.id, maxSize);
        } else {
          CleanSound(s, u.now, maxSize);
          CleanedFollow(s, u.now);
        }
        FollowsTransitively(Ids(t), Ids(s), LastUsed(before));
      }
    }
  }

  predicate CleanedBy<V>(steps: seq<Step<V>>, now: int) {
    forall i :: 0 <= i < |steps| && steps[i].Clean? ==> steps[i].now <= now
  }

  lemma UsedOtherwiseRecent(order: seq<nat>, id: nat, x: nat, n: nat)
    requires 0 < n && NoDuplicates(order) && x != id && x in Take([id] + Without(order, id), n)
    ensures x in Take(order, n)
  {
    var kept := Take(order, n);
    TouchTake(order, id, n);
    WithoutMembers(kept, id);
    var rest := Touched(kept, id, n)[1..];
    assert x in rest;
  }

  lemma UseKeepsOthers(ids: seq<nat>, id: nat, x: nat, n: nat)
    requires |ids| <= n && 0 < n && x in ids && x != id
    requires id !in ids && |ids| == n ==> x != ids[n - 1]
    ensures x in Touched(ids, id, n)
  {
    if id in ids {
      WithoutMembers(ids, id);
    } else if |ids| == n {
      var i :| 0 <= i < n && ids[i] == x;
      assert ids[..n - 1][i] == x;
    }
  }

  // An id that a use of another pushes out was not among the n most recently used after it.
  lemma UseKeeps(ids: seq<nat>, order: seq<nat>, id: nat, x: nat, n: nat)
    requires |ids| <= n && 0 < n && Follows(ids, order)
    requires NoDuplicates([id] + Without(order, id))
    requires x in ids && x != id && x in Take([id] + Without(order, id), n)
    ensures x in Touched(ids, id, n)
  {
    if id !in ids && |ids| == n {
      UseFollows(ids, order, id, n);
      PushedOut(ids, [id] + Without(order, id), id, n);
    }
    UseKeepsOthers(ids, id, x, n);
  }

  lemma PushedOut(ids: seq<nat>, newer: seq<nat>, id: nat, n: nat)
    requires |ids| == n > 0 && Follows([id] + ids, newer) && NoDuplicates(newer)
    ensures ids[n - 1] !in Take(newer, n)
  {
    var a := [id] + ids;
    LastStandsFar(a, newer);
    assert a[n] == ids[n - 1];
  }

  lemma CleanKeeps<V>(s: seq<Entry<V>>, now: int, k: nat)
    requires k < |s| && !Expired(s[k], now)
    ensures Has(Cleaned(s, now), s[k].id)
  {
    CleanedEntries(s, now);
    assert s[k] in Cleaned(s, now);
  }

  lemma DropKeeps<V>(s: seq<Entry<V>>, id: nat, x: nat)
    requires Has(s, x) && x != id
    ensures Has(Removed(s, id), x)
  {
    IndexFinds(s, id);
    var k := Index(s, id);
    if k < |s| {
      var i :| 0 <= i < |s| && s[i].id == x;
      CutAt(s, k, if i < k then i else i - 1);
    }
  }

  lemma {:induction false} RecentAndFreshIsCached<V>(steps: seq<Step<V>>, id: nat, now: int, ttl: int, maxSize: nat)
    requires 0 < maxSize && NoZero(steps) && CleanedBy(steps, now)
    requires id in Take(LastUsed(steps), maxSize) && WithinTtl(LastFill(steps, id, ttl, maxSize), now, ttl)
    ensures Has(Run(steps, ttl, maxSize), id)
  {
    var before, u := steps[..|steps| - 1], steps[|steps| - 1];
    var s, t := Run(before, ttl, maxSize), Run(steps, ttl, maxSize);
    RunExplained(before, ttl, maxSize);
    CachedInOrderOfUse(before, ttl, maxSize);
    LastUsedUnique(before);
    LastUsedUnique(steps);
    if Uses(u) && u.id == id {
      UseIds(s, u, ttl, maxSize);
      assert t[0].id == Ids(t)[0];
    } else {
      if Uses(u) {
        UsedOtherwiseRecent(LastUsed(before), u.id, id, maxSize);
      }
      RecentAndFreshIsCached(before, id, now, ttl, maxSize);
      HasIsIn(s, id);
      HasIsIn(t, id);
      if Uses(u) {
        UseIds(s, u, ttl, maxSize);
        UseKeeps(Ids(s), LastUsed(before), u.id, id, maxSize);
      } else if u.Drop? {
        DropKeeps(s, u.id, id);
      } else {
        var k :| 0 <= k < |s| && s[k].id == id;
        assert Explained(before, s[k], ttl, maxSize);
        CleanKeeps(s, u.now, k);
      }
    }
  }

  /**
   In any run, an id among the maxSize most recently used whose last fill is within the TTL hits, and
   brings what that fill brought, provided no clean-up ran by a later clock than the read's.
   */
  lemma RecentAndFreshAlwaysHits<V>(steps: seq<Step<V>>, id: nat, now: int, ttl: int, maxSize: nat)
    requires 0 < maxSize && NoZero(steps) && CleanedBy(steps, now)
    requires id in Take(LastUsed(steps), maxSize) && WithinTtl(LastFill(steps, id, ttl, maxSize), now, ttl)
    ensures Get(Run(steps, ttl, maxSize), id, now).0 == Some(LastFill(steps, id, ttl, maxSize).value.key)
  {
    RecentAndFreshIsCached(steps, id, now, ttl, maxSize);
    CachedIsHit(steps, id, now, ttl, maxSize);
  }
}
