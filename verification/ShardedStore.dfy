/**
 The sharded in-memory store.  Ghost field `flat` is the one map it stands for: every operation is
 proved to do to it what the functions of Slots say, and resharding is proved not to change it.
 */
module ShardedStores {
  import opened Wrappers
  import opened Decimal
  import opened Lists
  import opened Slots
  import opened Sharding
  import opened MemoryStores
  import SortedSets

  /** A shard holds plain values in place and sorted sets by reference. */
  datatype Cell<V> = Plain(content: Value<V>) | Ranked(zset: SortedSets.SortedSet)

  datatype Config = Config(shardCount: int, cacheSize: int, maxMemoryUsage: int, gcInterval: int)

  datatype ConfigError = NilConfig | BadShardCount | BadCacheSize | BadMemoryUsage | NotAPowerOfTwo

  const DEFAULT_CONFIG := Config(16, 1000, 100 * 1024 * 1024, 10 * 60_000_000_000)

  predicate ValidCount(count: int) {
    count > 0 && BitAnd(count, count - 1) == 0
  }

  function MaskOf(count: nat): (mask: nat)
    requires count > 0
    ensures mask < count
  {
    (count - 1) % WORD
  }

  function ConfigProblem(config: Config): Option<ConfigError> {
    if config.shardCount <= 0 || config.shardCount > 1024 then Some(BadShardCount)
    else if config.cacheSize <= 0 then Some(BadCacheSize)
    else if config.maxMemoryUsage <= 0 then Some(BadMemoryUsage)
    else if !ValidCount(config.shardCount) then Some(NotAPowerOfTwo)
    else None
  }

  function ReconfigureReply(config: Option<Config>): Result<(), ConfigError> {
    match config
    case None => Err(NilConfig)
    case Some(c) => (match ConfigProblem(c) case Some(e) => Err(e) case None => Ok(()))
  }

  /** What the validation lets through. */
  lemma AcceptedConfigs(config: Config)
    ensures ReconfigureReply(Some(config)).Ok? <==>
            && 0 < config.shardCount <= 1024 && config.cacheSize > 0 && config.maxMemoryUsage > 0
            && IsPowerOfTwo(config.shardCount)
    ensures ReconfigureReply(Some(config)) == Err(BadShardCount) <==> config.shardCount <= 0 || config.shardCount > 1024
  {
    if config.shardCount > 0 {
      PowerOfTwoTest(config.shardCount);
    }
  }

  /** With a count that was let through, a key's shard is its hash modulo the count. */
  lemma ShardIsHashModuloCount(key: string, count: nat)
    requires ValidCount(count) && count <= WORD
    ensures ShardIndex(key, MaskOf(count)) == Fnv32a(key) % count
  {
    PowerOfTwoTest(count);
    EveryShardIsReachable(count - 1);
    assert MaskOf(count) == count - 1;
  }

  class Shard<V> {
    ghost const index: nat
    var data: map<string, Cell<V>>
    var lastGC: int

    constructor (ghost index: nat, now: int)
      ensures this.index == index && data == map[] && lastGC == now
    {
      this.index, data, lastGC := index, map[], now;
    }
  }

  method NewShards<V>(count: nat, now: int) returns (shards: seq<Shard<V>>)
    ensures |shards| == count && fresh(set s | s in shards)
    ensures forall k :: 0 <= k < count ==> shards[k].index == k && shards[k].data == map[] && shards[k].lastGC == now
  {
    shards := [];
    for i := 0 to count
      invariant |shards| == i && fresh(set s | s in shards)
      invariant forall k :: 0 <= k < i ==> shards[k].index == k && shards[k].data == map[] && shards[k].lastGC == now
    {
      var shard := new Shard<V>(i, now);
      shards := shards + [shard];
    }
  }

  function CellAt<V>(cells: map<string, Cell<V>>, key: string): Option<Cell<V>> {
    if key in cells then Some(cells[key]) else None
  }

  /** The shard a key's hash selects holds the key, and no other shard does. */
  ghost predicate Placed<V>(shards: seq<Shard<V>>, mask: nat, cells: map<string, Cell<V>>)
    reads shards
  {
    && mask < |shards|
    && (forall i :: 0 <= i < |shards| ==> shards[i].index == i)
    && (forall i, key :: 0 <= i < |shards| && key in shards[i].data ==> i == ShardIndex(key, mask))
    && (forall key :: CellAt(shards[ShardIndex(key, mask)].data, key) == CellAt(cells, key))
  }

  /** What one shard, and the shards before it, hold of all the cells. */
  ghost function CellsOf<V>(cells: map<string, Cell<V>>, mask: nat, i: nat): map<string, Cell<V>> {
    map key | key in cells && ShardIndex(key, mask) == i :: cells[key]
  }

  ghost function CellsBelow<V>(cells: map<string, Cell<V>>, mask: nat, n: nat): map<string, Cell<V>> {
    map key | key in cells && ShardIndex(key, mask) < n :: cells[key]
  }

  lemma CellsGrow<V>(cells: map<string, Cell<V>>, mask: nat, i: nat)
    ensures CellsBelow(cells, mask, i) + CellsOf(cells, mask, i) == CellsBelow(cells, mask, i + 1)
  {
  }

  lemma OneShard<V>(shards: seq<Shard<V>>, mask: nat, cells: map<string, Cell<V>>, i: nat)
    requires Placed(shards, mask, cells) && i < |shards|
    ensures shards[i].data == CellsOf(cells, mask, i)
  {
    var data := shards[i].data;
    forall key | key in data ensures key in cells && ShardIndex(key, mask) == i && data[key] == cells[key] {
      assert CellAt(shards[ShardIndex(key, mask)].data, key) == CellAt(cells, key);
    }
    forall key | key in cells && ShardIndex(key, mask) == i ensures key in data {
      assert CellAt(shards[ShardIndex(key, mask)].data, key) == CellAt(cells, key);
    }
  }

  ghost predicate Shown<V>(cells: map<string, Cell<V>>, flat: Data<V>, zsets: set<SortedSets.SortedSet>)
    reads zsets
  {
    && cells.Keys == flat.Keys
    && (forall key :: key in cells && cells[key].Plain? ==> cells[key].content == flat[key] && !flat[key].SortedSet?)
    && (forall key :: key in cells && cells[key].Ranked? ==>
          && cells[key].zset in zsets && cells[key].zset.owner == key
          && flat[key] == SortedSet(cells[key].zset.members))
    && (forall z :: z in zsets ==> z.Valid())
  }

  lemma DropOneMore<V>(data: Data<V>, dropped: seq<string>, key: string)
    ensures data - (set k | k in dropped) - {key} == data - set k | k in dropped + [key]
  {
  }

  lemma SetTwice<V>(data: Data<V>, key: string, first: Value<V>, second: Value<V>)
    ensures data[key := first][key := second] == data[key := second]
  {
  }

  /** All of one shard's expired items are gone, but for the keys still to be looked at. */
  ghost predicate Collected<V>(before: Data<V>, after: Data<V>, mask: nat, i: nat, rest: set<string>, now: int) {
    forall key :: At(after, key) ==
      if ShardIndex(key, mask) == i && key !in rest then Refreshed(At(before, key), now) else At(before, key)
  }

  /** The expired items of the due shards among the first n are gone; everything else stays. */
  ghost predicate CollectedUpTo<V>(before: Data<V>, after: Data<V>, mask: nat, due: set<nat>, n: nat, now: int) {
    forall key :: At(after, key) ==
      if ShardIndex(key, mask) in due && ShardIndex(key, mask) < n then Refreshed(At(before, key), now)
      else At(before, key)
  }

  lemma CollectingShard<V>(before: Data<V>, between: Data<V>, after: Data<V>, mask: nat, due: set<nat>, i: nat,
                           now: int)
    requires i in due && CollectedUpTo(before, between, mask, due, i, now)
    requires Collected(between, after, mask, i, {}, now)
    ensures CollectedUpTo(before, after, mask, due, i + 1, now)
  {
  }

  lemma CollectingOne<V>(before: Data<V>, between: Data<V>, after: Data<V>, mask: nat, i: nat, rest: set<string>,
                         key: string, now: int)
    requires Collected(before, between, mask, i, rest, now) && key in rest && ShardIndex(key, mask) == i
    requires after == Put(between, key, Refreshed(At(between, key), now))
    ensures Collected(before, after, mask, i, rest - {key}, now)
  {
  }

  class ShardedMemoryStore<V(==)> {
    var shards: seq<Shard<V>>
    var mask: nat
    var config: Config
    ghost var cells: map<string, Cell<V>>  // all the shards' data
    ghost var flat: Data<V>
    ghost var zsets: set<SortedSets.SortedSet>

    ghost predicate Valid()
      reads this, shards, zsets
    {
      ValidCount(|shards|) && mask == MaskOf(|shards|) && Placed(shards, mask, cells) && Shown(cells, flat, zsets)
    }

    constructor (config: Config, now: int)
      requires ValidCount(config.shardCount)
      ensures Valid() && flat == map[] && this.config == config && |shards| == config.shardCount
      ensures fresh(set s | s in shards) && zsets == {}
    {
      this.config, mask := config, MaskOf(config.shardCount);
      cells, flat, zsets, shards := map[], map[], {}, [];
      new;
      shards := NewShards<V>(config.shardCount, now);
    }

    /** The default has 16 shards; a shard count that is no power of two is refused. */
    static method Create(config: Option<Config>, now: int) returns (store: Option<ShardedMemoryStore<V>>)
      ensures store.Some? <==> (config.Some? ==> ValidCount(config.value.shardCount))
      ensures store.Some? ==> fresh(store.value) && store.value.Valid() && store.value.flat == map[]
      ensures store.Some? ==> |store.value.shards| == if config.Some? then config.value.shardCount else 16
    {
      var chosen := if config.Some? then config.value else DEFAULT_CONFIG;
      assert BitAnd(16, 15) == 0 by { PowerOfTwoTest(16); assert Pow2(4) == 16; }
      if !ValidCount(chosen.shardCount) {
        return None;
      }
      var created := new ShardedMemoryStore(chosen, now);
      return Some(created);
    }

    function GetShard(key: string): (shard: Shard<V>)
      requires mask < |shards|
      reads this
    {
      shards[ShardIndex(key, mask)]
    }

    /** `shard.data[key] = value` */
    method Assign(shard: Shard<V>, key: string, value: Value<V>)
      requires Valid() && shard == GetShard(key) && !value.SortedSet?
      modifies this`cells, this`flat, shard`data
      ensures Valid() && flat == old(flat)[key := value]
    {
      shard.data := shard.data[key := Plain(value)];
      cells, flat := cells[key := Plain(value)], flat[key := value];
    }

    /** `delete(shard.data, key)` */
    method Erase(shard: Shard<V>, key: string)
      requires Valid() && shard == GetShard(key)
      modifies this`cells, this`flat, shard`data
      ensures Valid() && flat == old(flat) - {key}
    {
      shard.data := shard.data - {key};
      cells, flat := cells - {key}, flat - {key};
    }

    // ---------- Plain items ----------

    method Set(key: string, value: V, ttl: int, now: int)
      requires Valid()
      modifies this`cells, this`flat, shards`data
      ensures Valid() && flat == old(flat)[key := NewItem(value, ttl, now)]
    {
      var expiresAt := 0;
      if ttl > 0 {
        expiresAt := now + ttl;
      }
      Assign(GetShard(key), key, Item(value, expiresAt));
    }

    method Get(key: string, now: int) returns (r: Reply<V>)
      requires Valid()
      modifies this`cells, this`flat, shards`data
      ensures Valid()
      ensures r == GetReply(old(At(flat, key)), now)
      ensures flat == Put(old(flat), key, Refreshed(old(At(flat, key)), now))
    {
      var shard := GetShard(key);
      if key !in shard.data {
        return Err(NotFound);
      }
      var cell := shard.data[key];
      if !(cell.Plain? && cell.content.Item?) {
        return Err(TypeMismatch);
      }
      if cell.content.expiresAt > 0 && now > cell.content.expiresAt {
        Erase(shard, key);
        return Err(NotFound);
      }
      return Ok(cell.content.value);
    }

    method Delete(key: string)
      requires Valid()
      modifies this`cells, this`flat, shards`data
      ensures Valid() && flat == old(flat) - {key}
    {
      Erase(GetShard(key), key);
    }

    method Del(keys: seq<string>)
      requires Valid()
      modifies this`cells, this`flat, shards`data
      ensures Valid() && flat == old(flat) - set k | k in keys
    {
      for i := 0 to |keys|
        invariant Valid() && flat == old(flat) - set k | k in keys[..i]
      {
        DropOneMore(old(flat), keys[..i], keys[i]);
        assert keys[..i + 1] == keys[..i] + [keys[i]];
        Erase(GetShard(keys[i]), keys[i]);
      }
      assert keys[..|keys|] == keys;
    }

    method Exists(key: string, now: int) returns (found: bool)
      requires Valid()
      modifies this`cells, this`flat, shards`data
      ensures Valid()
      ensures found <==> Refreshed(old(At(flat, key)), now).Some?
      ensures flat == Put(old(flat), key, Refreshed(old(At(flat, key)), now))
    {
      var shard := GetShard(key);
      if key !in shard.data {
        return false;
      }
      var cell := shard.data[key];
      if cell.Plain? && cell.content.Item? && cell.content.expiresAt > 0 && now > cell.content.expiresAt {
        Erase(shard, key);
        return false;
      }
      return true;
    }

    method SetNX(key: string, value: V, ttl: int, now: int) returns (stored: bool)
      requires Valid()
      modifies this`cells, this`flat, shards`data
      ensures Valid()
      ensures stored <==> !Blocks(old(At(flat, key)), now)
      ensures flat == Put(old(flat), key, Slots.SetNX(old(At(flat, key)), value, ttl, now))
    {
      var shard := GetShard(key);
      if key in shard.data {
        var cell := shard.data[key];
        if !(cell.Plain? && cell.content.Item?) {
          return false;
        }
        if cell.content.expiresAt == 0 || now < cell.content.expiresAt {
          return false;
        }
      }
      var expiresAt := 0;
      if ttl > 0 {
        expiresAt := now + ttl;
      }
      Assign(shard, key, Item(value, expiresAt));
      return true;
    }

    // ---------- Hashes ----------

    method HSet(key: string, fields: map<string, string>) returns (r: Reply<()>)
      requires Valid()
      modifies this`cells, this`flat, shards`data
      ensures Valid()
      ensures r == Slots.HSet(old(At(flat, key)), fields).1
      ensures flat == Put(old(flat), key, Slots.HSet(old(At(flat, key)), fields).0)
    {
      var shard := GetShard(key);
      var hash := map[];
      if key in shard.data {
        var cell := shard.data[key];
        if !(cell.Plain? && cell.content.Hash?) {
          return Err(TypeMismatch);
        }
        hash := cell.content.fields;
      }
      Assign(shard, key, Hash(hash + fields));
      return Ok(());
    }

    method HGetAll(key: string) returns (r: Reply<map<string, string>>)
      requires Valid()
      ensures r == FieldsOf(At(flat, key))
    {
      var shard := GetShard(key);
      if key !in shard.data {
        return Ok(map[]);
      }
      var cell := shard.data[key];
      if !(cell.Plain? && cell.content.Hash?) {
        return Err(TypeMismatch);
      }
      return Ok(cell.content.fields);
    }

    method HIncrBy(key: string, field: string, incr: int) returns (r: Reply<int>)
      requires Valid()
      modifies this`cells, this`flat, shards`data
      ensures Valid()
      ensures r == HIncrByChecked(old(At(flat, key)), field, incr).1
      ensures flat == Put(old(flat), key, HIncrByChecked(old(At(flat, key)), field, incr).0)
    {
      var shard := GetShard(key);
      var hash := map[];
      if key in shard.data {
        var cell := shard.data[key];
        if !(cell.Plain? && cell.content.Hash?) {
          return Err(TypeMismatch);
        }
        hash := cell.content.fields;
      }
      var counted := CounterValue(hash, field);
      if counted == None {
        return Err(NotInteger);
      }
      var current := counted.value;
      Assign(shard, key, Hash(hash[field := FormatInt(current + incr)]));
      return Ok(current + incr);
    }

    static method CounterValue(hash: map<string, string>, field: string) returns (value: Option<int>)
      ensures value == if field in hash then ParseLenient(hash[field]) else Some(0)
    {
      if field !in hash {
        return Some(0);
      }
      value := ParseInt64(hash[field]);
    }

    // ---------- Lists ----------

    method LPush(key: string, values: seq<string>) returns (r: Reply<()>)
      requires Valid()
      modifies this`cells, this`flat, shards`data
      ensures Valid()
      ensures r == Slots.LPush(old(At(flat, key)), values).1
      ensures flat == Put(old(flat), key, Slots.LPush(old(At(flat, key)), values).0)
    {
      var shard := GetShard(key);
      var list := [];
      if key in shard.data {
        var cell := shard.data[key];
        if !(cell.Plain? && cell.content.List?) {
          return Err(TypeMismatch);
        }
        list := cell.content.items;
      }
      Assign(shard, key, List(values + list));
      return Ok(());
    }

    method LRem(key: string, count: int, value: string) returns (r: Reply<()>)
      requires Valid()
      modifies this`cells, this`flat, shards`data
      ensures Valid()
      ensures r == Slots.LRem(old(At(flat, key)), count, value).1
      ensures flat == Put(old(flat), key, Slots.LRem(old(At(flat, key)), count, value).0)
    {
      var shard := GetShard(key);
      if key !in shard.data {
        return Ok(());
      }
      var cell := shard.data[key];
      if !(cell.Plain? && cell.content.List?) {
        return Err(TypeMismatch);
      }
      if count != 0 {
        return Err(NotImplemented);
      }
      var list, newList := cell.content.items, [];
      for i := 0 to |list|
        invariant newList == Without(list[..i], value)
      {
        if list[i] != value {
          newList := newList + [list[i]];
        }
        assert list[..i + 1][..i] == list[..i];
      }
      assert list[..|list|] == list;
      Assign(shard, key, List(newList));
      return Ok(());
    }

    method Rotate(key: string) returns (r: Reply<string>)
      requires Valid()
      modifies this`cells, this`flat, shards`data
      ensures Valid()
      ensures r == Slots.Rotate(old(At(flat, key))).1
      ensures flat == Put(old(flat), key, Slots.Rotate(old(At(flat, key))).0)
    {
      var shard := GetShard(key);
      if key !in shard.data {
        return Err(NotFound);
      }
      var cell := shard.data[key];
      if !(cell.Plain? && cell.content.List?) {
        return Err(TypeMismatch);
      }
      var list := cell.content.items;
      if |list| == 0 {
        return Err(NotFound);
      }
      var item := list[|list| - 1];
      Assign(shard, key, List([item] + list[..|list| - 1]));
      return Ok(item);
    }

    // ---------- Sets ----------

    method SAdd(key: string, members: seq<string>) returns (r: Reply<()>)
      requires Valid()
      modifies this`cells, this`flat, shards`data
      ensures Valid()
      ensures r == Slots.SAdd(old(At(flat, key)), members).1
      ensures flat == Put(old(flat), key, Slots.SAdd(old(At(flat, key)), members).0)
    {
      var shard := GetShard(key);
      var was := {};
      if key in shard.data {
        var cell := shard.data[key];
        if !(cell.Plain? && cell.content.Set?) {
          return Err(TypeMismatch);
        }
        was := cell.content.members;
      }
      var now := was;
      for i := 0 to |members|
        invariant now == was + set m | m in members[..i]
      {
        now := now + {members[i]};
        assert members[..i + 1] == members[..i] + [members[i]];
      }
      assert members[..|members|] == members;
      Assign(shard, key, Slots.Set(now));
      return Ok(());
    }

    /** Pops min(count, size) members; which ones is up to the iteration order of the set. */
    method SPopN(key: string, count: nat) returns (r: Reply<seq<string>>)
      requires Valid()
      modifies this`cells, this`flat, shards`data
      ensures Valid()
      ensures Pops(old(At(flat, key)), count, r)
      ensures flat == if r.Ok? then Put(old(flat), key, AfterPop(old(At(flat, key)), r.value)) else old(flat)
    {
      var shard := GetShard(key);
      if key !in shard.data {
        return Ok([]);
      }
      var cell := shard.data[key];
      if !(cell.Plain? && cell.content.Set?) {
        return Err(TypeMismatch);
      }
      var members := cell.content.members;
      var popped, rest := PopMembers(members, if count > |members| then |members| else count);
      assert rest == members - set m | m in popped;
      Assign(shard, key, Slots.Set(rest));
      return Ok(popped);
    }

    // ---------- Sorted sets ----------

    method ZAdd(key: string, added: seq<(string, real)>) returns (r: Reply<()>)
      requires Valid()
      modifies this`cells, this`flat, this`zsets, shards`data, zsets
      ensures Valid() && fresh(zsets - old(zsets))
      ensures r == Slots.ZAdd(old(At(flat, key)), added).1
      ensures flat == Put(old(flat), key, Slots.ZAdd(old(At(flat, key)), added).0)
      ensures r.Ok? ==>
                && key in flat && flat[key].SortedSet?
                && SortedSets.Rescored(ScoresOf(old(At(flat, key))).value, added, flat[key].scores)
    {
      if ScoresOf(At(flat, key)).Ok? {
        SortedSets.ScoringRescores(ScoresOf(At(flat, key)).value, added);
      }
      var shard := GetShard(key);
      if key !in shard.data {
        AddFirst(shard, key, added);
        return Ok(());
      }
      var cell := shard.data[key];
      if !cell.Ranked? {
        return Err(TypeMismatch);
      }
      AddScores(key, cell.zset, added);
      return Ok(());
    }

    /** Puts a new sorted set under a free key and adds to it. */
    method AddFirst(shard: Shard<V>, key: string, added: seq<(string, real)>)
      requires Valid() && shard == GetShard(key) && key !in flat
      modifies this`cells, this`flat, this`zsets, shard`data
      ensures Valid() && fresh(zsets - old(zsets))
      ensures flat == old(flat)[key := SortedSet(SortedSets.Scoring(map[], added))]
    {
      SetTwice(flat, key, SortedSet(map[]), SortedSet(SortedSets.Scoring(map[], added)));
      var zset := new SortedSets.SortedSet(key);
      StillValid();
      Install(shard, key, zset);
      AddScores(key, zset, added);
    }

    twostate lemma StillValid()
      requires old(Valid()) && unchanged(this) && unchanged(shards) && unchanged(zsets)
      ensures Valid()
    {
    }

    method Install(shard: Shard<V>, key: string, zset: SortedSets.SortedSet)
      requires Valid() && shard == GetShard(key) && key !in flat
      requires zset.Valid() && zset.owner == key && zset !in zsets
      modifies this`cells, this`flat, this`zsets, shard`data
      ensures Valid() && flat == old(flat)[key := SortedSet(zset.members)]
      ensures zsets == old(zsets) + {zset} && cells == old(cells)[key := Ranked(zset)]
    {
      shard.data := shard.data[key := Ranked(zset)];
      cells, flat, zsets := cells[key := Ranked(zset)], flat[key := SortedSet(zset.members)], zsets + {zset};
    }

    method AddScores(key: string, zset: SortedSets.SortedSet, added: seq<(string, real)>)
      requires Valid() && key in cells && cells[key] == Ranked(zset)
      modifies this`flat, zset
      ensures Valid()
      ensures flat == old(flat)[key := SortedSet(SortedSets.Scoring(old(flat)[key].scores, added))]
    {
      zset.Add(added);
      flat := flat[key := SortedSet(zset.members)];
    }

    method ZRem(key: string, names: seq<string>) returns (r: Reply<()>)
      requires Valid()
      modifies this`flat, zsets
      ensures Valid()
      ensures r == Slots.ZRem(old(At(flat, key)), names).1
      ensures flat == Put(old(flat), key, Slots.ZRem(old(At(flat, key)), names).0)
    {
      var shard := GetShard(key);
      if key !in shard.data {
        return Ok(());
      }
      var cell := shard.data[key];
      if !cell.Ranked? {
        return Err(TypeMismatch);
      }
      RemoveNames(key, cell.zset, names);
      return Ok(());
    }

    method RemoveNames(key: string, zset: SortedSets.SortedSet, names: seq<string>)
      requires Valid() && key in cells && cells[key] == Ranked(zset)
      modifies this`flat, zset
      ensures Valid() && flat == old(flat)[key := SortedSet(old(flat)[key].scores - set m | m in names)]
    {
      zset.Remove(names);
      flat := flat[key := SortedSet(zset.members)];
    }

    method ZRemRangeByScore(key: string, min: real, max: real) returns (r: Reply<nat>)
      requires Valid()
      modifies this`flat, zsets
      ensures Valid()
      ensures r == Slots.ZRemRangeByScore(old(At(flat, key)), min, max).1
      ensures flat == Put(old(flat), key, Slots.ZRemRangeByScore(old(At(flat, key)), min, max).0)
    {
      var shard := GetShard(key);
      if key !in shard.data {
        return Ok(0);
      }
      var cell := shard.data[key];
      if !cell.Ranked? {
        return Err(TypeMismatch);
      }
      var removed := RemoveScores(key, cell.zset, min, max);
      return Ok(removed);
    }

    method RemoveScores(key: string, zset: SortedSets.SortedSet, min: real, max: real) returns (removed: nat)
      requires Valid() && key in cells && cells[key] == Ranked(zset)
      modifies this`flat, zset
      ensures Valid()
      ensures flat == old(flat)[key := SortedSet(SortedSets.OutOfRange(old(flat)[key].scores, min, max))]
      ensures removed == |old(flat)[key].scores| - |SortedSets.OutOfRange(old(flat)[key].scores, min, max)|
    {
      removed := zset.RemoveRangeByScore(min, max);
      flat := flat[key := SortedSet(zset.members)];
    }

    /** The names in the cached index of a sorted set, in their order. */
    ghost function IndexOf(key: string): seq<string>
      requires key in cells && cells[key].Ranked?
      reads this`cells, cells[key].zset`sorted
    {
      SortedSets.Names(cells[key].zset.sorted)
    }

    /** Reads leave a clean index, and keep one that was clean: reads in a row rank ties alike. */
    method ZRange(key: string, start: int, stop: int) returns (r: Reply<seq<string>>)
      requires Valid()
      modifies zsets
      ensures Valid()
      ensures r.Err? <==> ScoresOf(At(flat, key)).Err?
      ensures r.Err? ==> r.error == TypeMismatch
      ensures r.Ok? ==> SortedSets.RanksWindow(ScoresOf(At(flat, key)).value, start, stop, r.value)
      ensures r.Ok? && key in flat ==>
                && cells[key].Ranked? && !cells[key].zset.dirty
                && (!old(cells[key].zset.dirty) ==> IndexOf(key) == old(IndexOf(key)))
                && r.value == SortedSets.Window(IndexOf(key), start, stop)
    {
      var shard := GetShard(key);
      if key !in shard.data {
        SortedSets.WindowRanks([], map[], start, stop);
        return Ok([]);
      }
      var cell := shard.data[key];
      if !cell.Ranked? {
        return Err(TypeMismatch);
      }
      var names := cell.zset.Range(start, stop);
      return Ok(names);
    }

    method ZRangeByScore(key: string, min: real, max: real) returns (r: Reply<seq<string>>)
      requires Valid()
      modifies zsets
      ensures Valid()
      ensures r.Err? <==> ScoresOf(At(flat, key)).Err?
      ensures r.Err? ==> r.error == TypeMismatch
      ensures r.Ok? ==> SortedSets.RanksRange(ScoresOf(At(flat, key)).value, min, max, r.value)
      ensures r.Ok? ==> var scores := ScoresOf(At(flat, key)).value;
                forall m :: m in r.value <==> m in scores && min <= scores[m] <= max
      ensures r.Ok? && key in flat ==>
                && cells[key].Ranked? && !cells[key].zset.dirty
                && (!old(cells[key].zset.dirty) ==> IndexOf(key) == old(IndexOf(key)))
    {
      var shard := GetShard(key);
      if key !in shard.data {
        return Ok([]);
      }
      var cell := shard.data[key];
      if !cell.Ranked? {
        return Err(TypeMismatch);
      }
      var names := cell.zset.RangeByScore(min, max);
      return Ok(names);
    }

    // ---------- Garbage collection ----------

    /** The shards whose last collection is at least an interval ago. */
    function Due(now: int): set<nat>
      reads this, shards
    {
      set i | 0 <= i < |shards| && now - shards[i].lastGC >= config.gcInterval
    }

    /** Deletes the expired items of the shards that are due. */
    method PerformGC(now: int)
      requires Valid()
      modifies this`cells, this`flat, shards
      ensures Valid()
      ensures CollectedUpTo(old(flat), flat, mask, old(Due(now)), |shards|, now)
      ensures forall i :: 0 <= i < |shards| ==>
                (i in old(Due(now)) <==> now - old(shards[i].lastGC) >= config.gcInterval)
      ensures forall i :: 0 <= i < |shards| ==>
                shards[i].lastGC == if i in old(Due(now)) then now else old(shards[i].lastGC)
    {
      ghost var due := Due(now);
      for i := 0 to |shards|
        invariant Valid() && CollectedUpTo(old(flat), flat, mask, due, i, now)
        invariant forall k :: 0 <= k < |shards| ==>
                    shards[k].lastGC == if k in due && k < i then now else old(shards[k].lastGC)
      {
        if now - shards[i].lastGC >= config.gcInterval {
          ghost var before := flat;
          CollectShard(shards[i], i, now);
          CollectingShard(old(flat), before, flat, mask, due, i, now);
          MarkCollected(shards[i], i, now);
        }
      }
    }

    method MarkCollected(shard: Shard<V>, ghost i: nat, now: int)
      requires Valid() && i < |shards| && shard == shards[i]
      modifies shard`lastGC
      ensures Valid() && shard.lastGC == now
      ensures forall k :: 0 <= k < |shards| && k != i ==> shards[k].lastGC == old(shards[k].lastGC)
    {
      shard.lastGC := now;
    }

    method CollectShard(shard: Shard<V>, ghost i: nat, now: int)
      requires Valid() && i < |shards| && shard == shards[i]
      modifies this`cells, this`flat, shard`data
      ensures Valid()
      ensures Collected(old(flat), flat, mask, i, {}, now)
    {
      var rest := shard.data.Keys;
      forall key | key in rest ensures key in flat && ShardIndex(key, mask) == i {
        assert CellAt(shards[ShardIndex(key, mask)].data, key) == CellAt(cells, key);
      }
      while rest != {}
        invariant Valid() && forall key :: key in rest ==> key in flat && ShardIndex(key, mask) == i
        invariant Collected(old(flat), flat, mask, i, rest, now)
        decreases rest
      {
        var key :| key in rest;
        ghost var before := flat;
        CollectItem(shard, key, now);
        CollectingOne(old(flat), before, flat, mask, i, rest, key, now);
        rest := rest - {key};
      }
    }

    method CollectItem(shard: Shard<V>, key: string, now: int)
      requires Valid() && shard == GetShard(key) && key in flat
      modifies this`cells, this`flat, shard`data
      ensures Valid() && flat == Put(old(flat), key, Refreshed(old(At(flat, key)), now))
    {
      var cell := shard.data[key];
      if cell.Plain? && cell.content.Item? && cell.content.expiresAt > 0 && now > cell.content.expiresAt {
        Erase(shard, key);
      }
    }

    // ---------- Changing the number of shards ----------

    /** Keeps everything and redistributes it over new shards when their number changes. */
    method Reconfigure(newConfig: Option<Config>, now: int) returns (r: Result<(), ConfigError>)
      requires Valid()
      modifies this`shards, this`mask, this`config
      ensures Valid() && fresh((set s | s in shards) - old(set s | s in shards))
      ensures r == ReconfigureReply(newConfig)
      ensures r.Ok? ==> config == newConfig.value && |shards| == config.shardCount
      ensures r.Err? ==> shards == old(shards) && mask == old(mask) && config == old(config)
    {
      if newConfig == None {
        return Err(NilConfig);
      }
      var problem := ConfigProblem(newConfig.value);
      if problem.Some? {
        return Err(problem.value);
      }
      var count := newConfig.value.shardCount;
      if count != |shards| {
        ReshardData(count, now);
      }
      config := newConfig.value;
      mask := MaskOf(count);
      return Ok(());
    }

    method ReshardData(count: nat, now: int)
      requires Valid() && ValidCount(count)
      modifies this`shards
      ensures |shards| == count && Placed(shards, MaskOf(count), cells)
      ensures fresh(set s | s in shards)
    {
      var allData := CollectData();
      var newShards := NewShards<V>(count, now);
      Distribute(allData, newShards, MaskOf(count));
      shards := newShards;
    }

    method CollectData() returns (allData: map<string, Cell<V>>)
      requires Valid()
      ensures allData == cells
    {
      allData := map[];
      for i := 0 to |shards|
        invariant allData == CellsBelow(cells, mask, i)
      {
        assert shards[i].data == CellsOf(cells, mask, i) by {
          OneShard(shards, mask, cells, i);
        }
        CellsGrow(cells, mask, i);
        allData := allData + shards[i].data;
      }
    }

    static method Distribute(allData: map<string, Cell<V>>, newShards: seq<Shard<V>>, newMask: nat)
      requires newMask < |newShards|
      requires forall k :: 0 <= k < |newShards| ==> newShards[k].index == k && newShards[k].data == map[]
      modifies newShards`data
      ensures Placed(newShards, newMask, allData)
    {
      var rest := allData.Keys;
      while rest != {}
        invariant rest <= allData.Keys
        invariant Placed(newShards, newMask, allData - rest)
        decreases rest
      {
        var key :| key in rest;
        var shard := newShards[ShardIndex(key, newMask)];
        shard.data := shard.data[key := allData[key]];
        rest := rest - {key};
      }
      assert allData - rest == allData;
    }
  }
}
