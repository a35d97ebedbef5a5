/** The key provider: the pool's handlers carried out on the api_keys table and a text-keyed store. */
module KeyProviders {
  import opened Wrappers
  import opened Decimal
  import opened Lists
  import Slots
  import opened Pools
  import opened PoolBatches
  import opened MemoryStores

  // ---------- Names in the store ----------

  function KeyName(id: nat): string {
    "key:" + FormatInt(id)
  }

  function ListName(gid: nat): string {
    "group:" + FormatInt(gid) + ":active_keys"
  }

  const INIT_FLAG := "initialization:db_keys_loaded"

  lemma KeyNameIsInjective(a: nat, b: nat)
    requires KeyName(a) == KeyName(b)
    ensures a == b
  {
    assert KeyName(a)[4..] == FormatInt(a) && KeyName(b)[4..] == FormatInt(b);
    FormatIsInjective(a, b);
  }

  lemma ListNameIsInjective(a: nat, b: nat)
    requires ListName(a) == ListName(b)
    ensures a == b
  {
    var n := |ListName(a)|;
    assert ListName(a)[6..n - 12] == FormatInt(a) && ListName(b)[6..n - 12] == FormatInt(b);
    FormatIsInjective(a, b);
  }

  /** No two things the pool keeps in the store share a name. */
  lemma NamesNeverCollide()
    ensures forall a: nat, b: nat :: KeyName(a) == KeyName(b) ==> a == b
    ensures forall a: nat, b: nat :: ListName(a) == ListName(b) ==> a == b
    ensures forall a: nat, b: nat :: KeyName(a) != ListName(b)
    ensures forall a: nat :: KeyName(a) != INIT_FLAG && ListName(a) != INIT_FLAG
  {
    forall a: nat, b: nat | KeyName(a) == KeyName(b) ensures a == b {
      KeyNameIsInjective(a, b);
    }
    forall a: nat, b: nat | ListName(a) == ListName(b) ensures a == b {
      ListNameIsInjective(a, b);
    }
    forall a: nat, b: nat ensures KeyName(a) != ListName(b) && KeyName(a) != INIT_FLAG && ListName(b) != INIT_FLAG {
      assert KeyName(a)[0] == 'k' && ListName(b)[0] == 'g' && INIT_FLAG[0] == 'i';
    }
  }

  lemma NamesExample()
    ensures KeyName(42) == "key:42" && ListName(1) == "group:1:active_keys"
  {
    assert FormatInt(42) == "42" && FormatInt(1) == "1";
  }

  // ---------- The store shows the pool ----------

  /** Ids as the list keeps them. */
  function Texts(ids: seq<nat>): (r: seq<string>)
    ensures |r| == |ids|
  {
    seq(|ids|, i requires 0 <= i < |ids| => FormatInt(ids[i]))
  }

  lemma {:induction false} WithoutText(ids: seq<nat>, id: nat)
    ensures Without(Texts(ids), FormatInt(id)) == Texts(Without(ids, id))
  {
    if ids != [] {
      var before, last := ids[..|ids| - 1], ids[|ids| - 1];
      WithoutText(before, id);
      assert Texts(ids)[..|ids| - 1] == Texts(before);
      if FormatInt(last) == FormatInt(id) {
        FormatIsInjective(last, id);
      }
    }
  }

  function HashSlot(hashes: map<nat, Fields>, id: nat): Slots.Slot<string> {
    if id in hashes then Some(Slots.Hash(hashes[id])) else None
  }

  function ListSlot(lists: map<nat, seq<nat>>, gid: nat): Slots.Slot<string> {
    if gid in lists then Some(Slots.List(Texts(lists[gid]))) else None
  }

  /** Every cached hash and every list is in the store under its name, as text, and nothing else claims these names. */
  ghost predicate Coupled(data: Slots.Data<string>, hashes: map<nat, Fields>, lists: map<nat, seq<nat>>) {
    && (forall id: nat :: Slots.At(data, KeyName(id)) == HashSlot(hashes, id))
    && (forall gid: nat :: Slots.At(data, ListName(gid)) == ListSlot(lists, gid))
    && (INIT_FLAG in data ==> data[INIT_FLAG] == Slots.Item("1", 0))
  }

  lemma CoupledHash(data: Slots.Data<string>, hashes: map<nat, Fields>, lists: map<nat, seq<nat>>, id: nat, h: Fields)
    requires Coupled(data, hashes, lists)
    ensures Coupled(data[KeyName(id) := Slots.Hash(h)], hashes[id := h], lists)
    ensures Coupled(data - {KeyName(id)}, hashes - {id}, lists)
  {
    NamesNeverCollide();
    var data', hashes' := data[KeyName(id) := Slots.Hash(h)], hashes[id := h];
    forall other: nat
      ensures Slots.At(data', KeyName(other)) == HashSlot(hashes', other)
      ensures Slots.At(data - {KeyName(id)}, KeyName(other)) == HashSlot(hashes - {id}, other)
    {
      assert Slots.At(data, KeyName(other)) == HashSlot(hashes, other);
    }
  }

  lemma CoupledList(data: Slots.Data<string>, hashes: map<nat, Fields>, lists: map<nat, seq<nat>>, gid: nat,
                    list: seq<nat>)
    requires Coupled(data, hashes, lists)
    ensures Coupled(data[ListName(gid) := Slots.List(Texts(list))], hashes, lists[gid := list])
    ensures Coupled(data - {ListName(gid)}, hashes, lists - {gid})
  {
    NamesNeverCollide();
    var data', lists' := data[ListName(gid) := Slots.List(Texts(list))], lists[gid := list];
    forall other: nat
      ensures Slots.At(data', ListName(other)) == ListSlot(lists', other)
      ensures Slots.At(data - {ListName(gid)}, ListName(other)) == ListSlot(lists - {gid}, other)
    {
      assert Slots.At(data, ListName(other)) == ListSlot(lists, other);
    }
  }

  lemma CoupledFlag(data: Slots.Data<string>, hashes: map<nat, Fields>, lists: map<nat, seq<nat>>)
    requires Coupled(data, hashes, lists)
    ensures Coupled(data[INIT_FLAG := Slots.Item("1", 0)], hashes, lists)
  {
    NamesNeverCollide();
  }

  lemma RotatedTexts(list: seq<nat>)
    requires list != []
    ensures Texts(Rotated(list)) == Rotated(Texts(list))
    ensures Texts(list)[|list| - 1] == FormatInt(list[|list| - 1])
  {
  }

  lemma TimeAdded(fields: Fields, name: string, time: Option<int>)
    ensures fields + TimeField(name, time) == if time.Some? then fields[name := FormatInt(Unix(time.value))] else fields
  {
  }

  /** What a query hands back: each matching row once, in an order the database chooses. */
  ghost predicate Returned(db: Table, found: seq<nat>, matches: Row -> bool) {
    NoDuplicates(found) && forall id :: id in found <==> id in db && matches(db[id])
  }

  datatype SelectReply = NoActiveKeys | BadKeyId | Selected(key: ApiKey)

  class KeyProvider {
    var db: Table
    const store: MemoryStore<string>
    ghost var hashes: map<nat, Fields>
    ghost var lists: map<nat, seq<nat>>

    ghost predicate Valid()
      reads this, store
    {
      Coupled(store.data, hashes, lists)
    }

    ghost function Abs(): Pool
      reads this
    {
      Pool(db, hashes, lists)
    }

    constructor (db: Table)
      ensures Valid() && fresh(store) && Abs() == Pool(db, map[], map[]) && INIT_FLAG !in store.data
    {
      this.db := db;
      store := new MemoryStore<string>();
      hashes, lists := map[], map[];
    }

    // ---------- Store calls ----------

    method GetDetails(id: nat) returns (h: Fields)
      requires Valid()
      ensures h == Details(Abs(), id)
    {
      var r := store.HGetAll(KeyName(id));
      h := r.value;
    }

    method SetFields(id: nat, fields: Fields)
      requires Valid()
      modifies this`hashes, store
      ensures Valid() && Abs() == WithFields(old(Abs()), id, fields)
    {
      CoupledHash(store.data, hashes, lists, id, Details(Abs(), id) + fields);
      var r := store.HSet(KeyName(id), fields);
      assert r.Ok?;
      hashes := hashes[id := Details(Abs(), id) + fields];
    }

    method CountFailure(id: nat)
      requires Valid()
      modifies this`hashes, store
      ensures Valid()
      ensures var count := ParseOrZero(Field(Details(old(Abs()), id), FAILURE_COUNT)) + 1;
              Abs() == WithFields(old(Abs()), id, map[FAILURE_COUNT := FormatInt(count)])
    {
      ghost var h := Details(Abs(), id);
      assert ParseOrZero("") == 0;
      ghost var text := FormatInt(ParseOrZero(Field(h, FAILURE_COUNT)) + 1);
      assert h[FAILURE_COUNT := text] == h + map[FAILURE_COUNT := text];
      CoupledHash(store.data, hashes, lists, id, h + map[FAILURE_COUNT := text]);
      var r := store.HIncrBy(KeyName(id), FAILURE_COUNT, 1);
      assert r.Ok?;
      hashes := hashes[id := h + map[FAILURE_COUNT := text]];
    }

    method DeleteHash(id: nat)
      requires Valid()
      modifies this`hashes, store
      ensures Valid() && Abs() == WithoutKey(old(Abs()), id)
    {
      CoupledHash(store.data, hashes, lists, id, map[]);
      store.Delete(KeyName(id));
      hashes := hashes - {id};
    }

    method Delist(gid: nat, id: nat)
      requires Valid()
      modifies this`lists, store
      ensures Valid() && Abs() == Delisted(old(Abs()), gid, id)
    {
      if gid in lists {
        WithoutText(lists[gid], id);
        CoupledList(store.data, hashes, lists, gid, Without(lists[gid], id));
      } else {
        assert store.data - {ListName(gid)} == store.data;
      }
      var r := store.LRem(ListName(gid), 0, FormatInt(id));
      assert r.Ok?;
      lists := if gid in lists then lists[gid := Without(lists[gid], id)] else lists;
    }

    method Push(gid: nat, id: nat)
      requires Valid()
      modifies this`lists, store
      ensures Valid() && Abs() == Pushed(old(Abs()), gid, id)
    {
      ghost var list := [id] + Listed(Abs(), gid);
      assert Texts(list) == [FormatInt(id)] + Texts(Listed(Abs(), gid));
      CoupledList(store.data, hashes, lists, gid, list);
      var r := store.LPush(ListName(gid), [FormatInt(id)]);
      assert r.Ok?;
      lists := lists[gid := list];
    }

    // ---------- Selection and status updates ----------

    method RotateList(gid: nat) returns (item: Option<string>)
      requires Valid()
      modifies this`lists, store
      ensures Valid() && Abs() == Select(old(Abs()), gid)
      ensures item == match NextKey(old(Abs()), gid) case None => None case Some(id) => Some(FormatInt(id))
    {
      if gid in lists && lists[gid] != [] {
        ghost var list := lists[gid];
        RotatedTexts(list);
        CoupledList(store.data, hashes, lists, gid, Rotated(list));
      }
      var r := store.Rotate(ListName(gid));
      if r.Err? {
        return None;
      }
      lists := lists[gid := Rotated(lists[gid])];
      return Some(r.value);
    }

    method SelectKey(gid: nat) returns (r: SelectReply)
      requires Valid()
      modifies this`lists, store
      ensures Valid() && Abs() == Select(old(Abs()), gid)
      ensures r == match NextKey(old(Abs()), gid)
                   case None => NoActiveKeys
                   case Some(id) => Selected(Decoded(Details(old(Abs()), id), id, gid))
    {
      var item := RotateList(gid);
      if item == None {
        return NoActiveKeys;
      }
      RoundTrip(NextKey(old(Abs()), gid).value);
      var id := ParseNat(item.value);
      if id == None {
        return BadKeyId;
      }
      var h := GetDetails(id.value);
      return Selected(Decoded(h, id.value, gid));
    }

    method HandleSuccess(id: nat, gid: nat)
      requires Valid()
      modifies this, store
      ensures Valid() && Abs() == Pools.HandleSuccess(old(Abs()), id, gid)
    {
      var h := GetDetails(id);
      var isActive := Field(h, STATUS) == StatusText(Active);
      if ParseOrZero(Field(h, FAILURE_COUNT)) == 0 && isActive {
        return;
      }
      if id !in db {
        return;  // the row cannot be locked, so the transaction fails
      }
      var row := db[id].(failureCount := 0);
      var updates := map[FAILURE_COUNT := FormatInt(0)];
      if !isActive {
        row := row.(status := Active);
        updates := updates[STATUS := StatusText(Active)];
      }
      db := db[id := row];
      SetFields(id, updates);
      if !isActive {
        Delist(gid, id);
        Push(gid, id);
      }
    }

    method HandleFailure(id: nat, gid: nat, blacklistThreshold: int)
      requires Valid()
      modifies this, store
      ensures Valid() && Abs() == Pools.HandleFailure(old(Abs()), id, gid, blacklistThreshold)
    {
      var h := GetDetails(id);
      if Field(h, STATUS) == StatusText(Invalid) {
        return;
      }
      if id !in db {
        return;
      }
      var newFailureCount := ParseOrZero(Field(h, FAILURE_COUNT)) + 1;
      var row := db[id].(failureCount := newFailureCount);
      var shouldBlacklist := blacklistThreshold > 0 && newFailureCount >= blacklistThreshold;
      if shouldBlacklist {
        row := row.(status := Invalid);
      }
      RecordFailure(id, row);
      if shouldBlacklist {
        Blacklist(id, gid);
      }
    }

    method RecordFailure(id: nat, row: Row)
      requires Valid()
      modifies this`db, this`hashes, store
      ensures Valid()
      ensures var was := old(Abs()); var count := ParseOrZero(Field(Details(was, id), FAILURE_COUNT)) + 1;
              Abs() == WithFields(was.(db := was.db[id := row]), id, map[FAILURE_COUNT := FormatInt(count)])
    {
      db := db[id := row];
      CountFailure(id);
    }

    // The branch of HandleFailure for a key that has reached the threshold.
    method Blacklist(id: nat, gid: nat)
      requires Valid()
      modifies this`hashes, this`lists, store
      ensures Valid()
      ensures Abs() == WithFields(Delisted(old(Abs()), gid, id), id, map[STATUS := StatusText(Invalid)])
    {
      Delist(gid, id);
      SetFields(id, map[STATUS := StatusText(Invalid)]);
    }

    method HandleRateLimit(id: nat, gid: nat, now: int, resetAt: Option<int>)
      requires Valid()
      modifies this, store
      ensures Valid() && Abs() == Pools.HandleRateLimit(old(Abs()), id, gid, now, resetAt)
    {
      var h := GetDetails(id);
      if Field(h, STATUS) == StatusText(Invalid) {
        return;
      }
      if id !in db {
        return;
      }
      var count := db[id].rateLimitCount + 1;
      var row := db[id].(rateLimitCount := count, last429At := Some(now), status := RateLimited);
      var updates := map[STATUS := StatusText(RateLimited), RATE_LIMIT_COUNT := FormatInt(count),
                         LAST_429_AT := FormatInt(Unix(now))];
      TimeAdded(updates, RATE_LIMIT_RESET_AT, resetAt);
      if resetAt.Some? {
        row := row.(rateLimitResetAt := resetAt);
        updates := updates[RATE_LIMIT_RESET_AT := FormatInt(Unix(resetAt.value))];
      }
      db := db[id := row];
      SetFields(id, updates);
      Delist(gid, id);
    }

    // ---------- Batches ----------

    method AddKeyToStore(id: nat, row: Row)
      requires Valid()
      modifies this`hashes, this`lists, store
      ensures Valid() && Abs() == Cached(old(Abs()), id, row)
    {
      SetFields(id, RowFields(id, row));
      if row.status == Active {
        Delist(row.groupId, id);
        Push(row.groupId, id);
      }
    }

    method RemoveKeyFromStore(id: nat, gid: nat)
      requires Valid()
      modifies this`hashes, this`lists, store
      ensures Valid() && Abs() == Dropped(old(Abs()), id, gid)
    {
      Delist(gid, id);
      DeleteHash(id);
    }

    method AddAllToStore(rows: Table, order: seq<nat>)
      requires Valid() && forall id :: id in order ==> id in rows
      modifies this`hashes, this`lists, store
      ensures Valid() && Abs() == AllCached(old(Abs()), rows, order)
    {
      for i := 0 to |order|
        invariant Valid() && Abs() == AllCached(old(Abs()), rows, order[..i])
      {
        AddKeyToStore(order[i], rows[order[i]]);
        assert order[..i + 1][..i] == order[..i];
      }
      assert order[..|order|] == order;
    }

    method RemoveAllFromStore(rows: Table, order: seq<nat>)
      requires Valid() && forall id :: id in order ==> id in rows
      modifies this`hashes, this`lists, store
      ensures Valid() && Abs() == AllDropped(old(Abs()), rows, order)
    {
      for i := 0 to |order|
        invariant Valid() && Abs() == AllDropped(old(Abs()), rows, order[..i])
      {
        RemoveKeyFromStore(order[i], rows[order[i]].groupId);
        assert order[..i + 1][..i] == order[..i];
      }
      assert order[..|order|] == order;
    }

    method AddKeys(added: Table, order: seq<nat>) returns (ok: bool)
      requires Valid() && FreshIds(Abs(), added, order)
      modifies this, store
      ensures Valid() && Abs() == Pools.AddKeys(old(Abs()), added, order)
      ensures ok <==> Insertable(old(db), added)
    {
      if |order| == 0 {
        assert added == map[] && db + added == db;
        return true;
      }
      if !Insertable(db, added) {
        return false;
      }
      db := db + added;
      AddAllToStore(added, order);
      return true;
    }

    method RemoveFound(found: seq<nat>) returns (removed: nat)
      requires Valid() && forall id :: id in found ==> id in db
      modifies this, store
      ensures Valid() && Abs() == RemoveRows(old(Abs()), found) && removed == |found|
      ensures db == old(db) - set id | id in found
    {
      var rows := db;
      db := db - set id | id in found;
      RemoveAllFromStore(rows, found);
      return |found|;
    }

    /** Removes the keys of a group that carry one of the given values. */
    method RemoveKeys(gid: nat, keyValues: seq<string>, found: seq<nat>) returns (removed: nat)
      requires Valid()
      requires keyValues != [] ==> Returned(db, found, (row: Row) => row.groupId == gid && row.keyValue in keyValues)
      modifies this, store
      ensures Valid()
      ensures keyValues == [] ==> Abs() == old(Abs()) && removed == 0
      ensures keyValues != [] ==> Abs() == RemoveRows(old(Abs()), found) && removed == |found|
      ensures db == map id | id in old(db) && !(old(db)[id].groupId == gid && old(db)[id].keyValue in keyValues)
                      :: old(db)[id]
    {
      if |keyValues| == 0 {
        return 0;
      }
      removed := RemoveFound(found);
    }

    /** Removes the keys of a group, all of them or those with the given status. */
    method RemoveKeysByStatus(gid: nat, status: Option<Status>, found: seq<nat>) returns (removed: nat)
      requires Valid()
      requires Returned(db, found, (row: Row) => row.groupId == gid && (status.Some? ==> row.status == status.value))
      modifies this, store
      ensures Valid() && Abs() == RemoveRows(old(Abs()), found) && removed == |found|
      ensures db == map id | id in old(db) && !(old(db)[id].groupId == gid
                                                && (status == None || old(db)[id].status == status.value))
                      :: old(db)[id]
    {
      removed := RemoveFound(found);
    }

    method RestoreFound(found: seq<nat>) returns (restored: nat)
      requires Valid() && forall id :: id in found ==> id in db
      modifies this, store
      ensures Valid() && Abs() == RestoreRows(old(Abs()), found) && restored == |found|
      ensures db == Restored(old(db), found)
    {
      db := Restored(db, found);
      AddAllToStore(db, found);
      return |found|;
    }

    /** Restores every invalid key of a group. */
    method RestoreKeys(gid: nat, found: seq<nat>) returns (restored: nat)
      requires Valid() && Returned(db, found, (row: Row) => row.groupId == gid && row.status == Invalid)
      modifies this, store
      ensures Valid() && Abs() == RestoreRows(old(Abs()), found) && restored == |found|
      ensures db == map id | id in old(db) ::
                if old(db)[id].groupId == gid && old(db)[id].status == Invalid
                then old(db)[id].(status := Active, failureCount := 0) else old(db)[id]
    {
      restored := RestoreFound(found);
    }

    /** Restores the invalid keys of a group that carry one of the given values. */
    method RestoreMultipleKeys(gid: nat, keyValues: seq<string>, found: seq<nat>) returns (restored: nat)
      requires Valid()
      requires keyValues != [] ==>
                 Returned(db, found,
                          (row: Row) => row.groupId == gid && row.keyValue in keyValues && row.status == Invalid)
      modifies this, store
      ensures Valid()
      ensures keyValues == [] ==> Abs() == old(Abs()) && restored == 0
      ensures keyValues != [] ==> Abs() == RestoreRows(old(Abs()), found) && restored == |found|
      ensures db == map id | id in old(db) ::
                if old(db)[id].groupId == gid && old(db)[id].keyValue in keyValues && old(db)[id].status == Invalid
                then old(db)[id].(status := Active, failureCount := 0) else old(db)[id]
    {
      if |keyValues| == 0 {
        return 0;
      }
      restored := RestoreFound(found);
    }

    /** Updating a row that is gone is no error, so the store is written all the same. */
    method RecoverSingleKey(id: nat, gid: nat)
      requires Valid()
      modifies this, store
      ensures Valid() && Abs() == RecoverOne(old(Abs()), id, gid)
    {
      if id in db {
        db := db[id := RecoveredRow(db[id])];
      }
      SetFields(id, map[STATUS := StatusText(Active)]);
      Push(gid, id);
    }

    /** Recovers the rate-limited keys whose reset time is null or has passed. */
    method RecoverRateLimitedKeys(now: int, found: seq<nat>)
      requires Valid() && Returned(db, found, (row: Row) => Recoverable(row, now))
      modifies this, store
      ensures Valid() && Abs() == RecoverAll(old(Abs()), old(db), found)
      ensures old(Inv(Abs())) ==> Inv(Abs()) && RecoveredWhenDue(old(Abs()), Abs(), now)
    {
      if Inv(Abs()) {
        RecoveryFindsWhatIsDue(Abs(), found, now);
      }
      ghost var was := Abs();
      var rows := db;
      for i := 0 to |found|
        invariant Valid() && Abs() == RecoverAll(was, rows, found[..i])
      {
        RecoverSingleKey(found[i], rows[found[i]].groupId);
        assert found[..i + 1][..i] == found[..i];
      }
      assert found[..|found|] == found;
    }

    /** Drops a deleted group's list and its keys' hashes. */
    method RemoveKeysFromStore(gid: nat, ids: seq<nat>)
      requires Valid()
      modifies this`hashes, this`lists, store
      ensures Valid() && Abs() == RemoveFromStore(old(Abs()), gid, ids)
    {
      if |ids| == 0 {
        return;
      }
      CoupledList(store.data, hashes, lists, gid, []);
      store.Delete(ListName(gid));
      lists := lists - {gid};
      for i := 0 to |ids|
        invariant Valid() && db == old(db) && lists == old(lists) - {gid}
        invariant hashes == old(hashes) - set id | id in ids[..i]
      {
        DeleteHash(ids[i]);
        assert ids[..i + 1] == ids[..i] + [ids[i]];
      }
      assert ids[..|ids|] == ids;
    }

    // ---------- Loading ----------

    method ReplaceList(gid: nat, ids: seq<nat>)
      requires Valid()
      modifies this`lists, store
      ensures Valid() && lists == old(lists)[gid := ids]
    {
      CoupledList(store.data, hashes, lists, gid, ids);
      store.Delete(ListName(gid));
      var r := store.LPush(ListName(gid), Texts(ids));
      assert Texts(ids) + [] == Texts(ids);
      lists := lists[gid := ids];
    }

    /** Writes every row's hash and collects the active ids of each group. */
    method HashRows(order: seq<nat>) returns (active: map<nat, seq<nat>>)
      requires Valid()
      requires forall id :: id in order ==> id in db
      modifies this`hashes, store
      ensures Valid() && Abs() == AllHashed(old(Abs()), order)
      ensures GroupsActive(active, db, order)
    {
      active := map[];
      for i := 0 to |order|
        invariant Valid() && Abs() == AllHashed(old(Abs()), order[..i])
        invariant GroupsActive(active, db, order[..i])
      {
        var id := order[i];
        var row := db[id];
        GroupedOne(active, db, order, i);
        HashedOne(old(Abs()), order, i);
        SetFields(id, RowFields(id, row));
        if row.status == Active {
          active := active[row.groupId := (if row.groupId in active then active[row.groupId] else []) + [id]];
        }
      }
      assert order[..|order|] == order;
    }

    /** Replaces the list of every group that has active keys. */
    method FillLists(active: map<nat, seq<nat>>)
      requires Valid()
      modifies this`lists, store
      ensures Valid() && lists == old(lists) + active
    {
      var rest := active.Keys;
      while rest != {}
        invariant Valid() && rest <= active.Keys
        invariant lists == old(lists) + map gid | gid in active && gid !in rest :: active[gid]
      {
        var gid :| gid in rest;
        ReplaceList(gid, active[gid]);
        rest := rest - {gid};
      }
    }

    method LoadedBefore(now: int) returns (loaded: bool)
      requires Valid()
      modifies store
      ensures store.data == old(store.data) && (loaded <==> INIT_FLAG in store.data)
    {
      loaded := store.Exists(INIT_FLAG, now);
      assert store.data == old(store.data);
    }

    method MarkLoaded(now: int)
      requires Valid()
      modifies store
      ensures Valid() && INIT_FLAG in store.data
    {
      CoupledFlag(store.data, hashes, lists);
      store.Set(INIT_FLAG, "1", 0, now);
    }

    /** Fills the store from the table, once: rows come in the order of the query. */
    method LoadKeysFromDB(order: seq<nat>, now: int)
      requires Valid()
      requires NoDuplicates(order) && forall id :: id in order <==> id in db
      modifies this, store
      ensures Valid() && INIT_FLAG in store.data
      ensures Abs() == if INIT_FLAG in old(store.data) then old(Abs()) else LoadKeys(old(Abs()), order)
    {
      var loaded := LoadedBefore(now);
      if loaded {
        return;
      }
      var active := HashRows(order);
      LoadedPool(old(Abs()), order, active);
      FillLists(active);
      MarkLoaded(now);
    }
  }

  /** The active ids of every group that has some. */
  ghost predicate GroupsActive(active: map<nat, seq<nat>>, db: Table, order: seq<nat>)
    requires forall id :: id in order ==> id in db
  {
    && (forall gid :: gid in active <==> ActiveOf(db, order, gid) != [])
    && (forall gid :: gid in active ==> active[gid] == ActiveOf(db, order, gid))
  }

  lemma GroupedOne(active: map<nat, seq<nat>>, db: Table, order: seq<nat>, i: nat)
    requires (forall k :: k in order ==> k in db) && i < |order| && GroupsActive(active, db, order[..i])
    ensures var id := order[i]; var gid := db[id].groupId;
            var grown := active[gid := (if gid in active then active[gid] else []) + [id]];
            GroupsActive(if db[id].status == Active then grown else active, db, order[..i + 1])
  {
    assert order[..i + 1][..i] == order[..i];
  }

  lemma HashedOne(p: Pool, order: seq<nat>, i: nat)
    requires (forall k :: k in order ==> k in p.db) && i < |order|
    ensures AllHashed(p, order[..i + 1]) ==
            WithFields(AllHashed(p, order[..i]), order[i], RowFields(order[i], p.db[order[i]]))
  {
    assert order[..i + 1][..i] == order[..i];
  }

  lemma LoadedGroup(db: Table, order: seq<nat>, gid: nat)
    requires NoDuplicates(order) && forall id :: id in order <==> id in db
    ensures ActiveOf(db, order, gid) != [] <==> gid in ActiveGroups(db)
  {
    ActiveOfMembers(db, order, gid);
    if ActiveOf(db, order, gid) != [] {
      assert ActiveOf(db, order, gid)[0] in ActiveOf(db, order, gid);
    }
  }

  lemma LoadedPool(p: Pool, order: seq<nat>, active: map<nat, seq<nat>>)
    requires NoDuplicates(order) && forall id :: id in order <==> id in p.db
    requires GroupsActive(active, p.db, order)
    ensures LoadKeys(p, order) == AllHashed(p, order).(lists := p.lists + active)
  {
    forall gid: nat ensures gid in active <==> gid in ActiveGroups(p.db) {
      LoadedGroup(p.db, order, gid);
    }
    assert active == ActiveLists(p.db, order);
  }
}
