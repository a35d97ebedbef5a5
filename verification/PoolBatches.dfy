/** Handlers that work through many keys: they too leave table, hashes and lists in agreement. */
module PoolBatches {
  import opened Wrappers
  import opened Decimal
  import opened Lists
  import opened Pools

  // ---------- Caching a batch of rows ----------

  /** A row that is in no list yet and whose hash, if any, can be completed by writing the row. */
  ghost predicate Awaiting(p: Pool, rows: Table, id: nat) {
    && id in p.db && id in rows && rows[id] == p.db[id]
    && (p.db[id].last429At == None ==> LAST_429_AT !in Details(p, id))
    && forall gid: nat :: id !in Listed(p, gid)
  }

  lemma CachedEffect(p: Pool, rows: Table, id: nat)
    requires Awaiting(p, rows, id)
    ensures var q := Cached(p, id, rows[id]);
            Touches(p, q, id) && Agrees(q, id) && q.db == p.db
  {
    var row := rows[id];
    var w := WithFields(p, id, RowFields(id, row));
    FieldsTouch(p, id, RowFields(id, row));
    SameListsStayUnique(p, w);
    MirrorsRow(Details(p, id), id, row);
    if row.status == Active {
      RelistedEffect(w, row.groupId, id);
      TouchesIsTransitive(p, w, Relisted(w, row.groupId, id), id);
    }
  }

  lemma {:induction false} AllCachedEffect(p: Pool, rows: Table, order: seq<nat>)
    requires ListsUnique(p) && NoDuplicates(order)
    requires forall id :: id in order ==> id in rows
    requires forall id :: id in order ==> Awaiting(p, rows, id)
    ensures var q := AllCached(p, rows, order);
            && q.db == p.db && ListsUnique(q)
            && (forall id :: id in order ==> Agrees(q, id))
            && forall id: nat :: id !in order ==> SameKey(p, q, id)
  {
    if order != [] {
      var before, id := order[..|order| - 1], order[|order| - 1];
      AllCachedEffect(p, rows, before);
      var b, q := AllCached(p, rows, before), AllCached(p, rows, order);
      assert id !in before && SameKey(p, b, id) && Awaiting(p, rows, id);
      CachedEffect(b, rows, id);
      forall other: nat | other != id
        ensures other in order ==> Agrees(q, other)
        ensures other !in order ==> SameKey(p, q, other)
      {
        assert SameKey(b, q, other);
        assert other in order <==> other in before;
        if other in order {
          SameKeyAgrees(b, q, other);
        } else {
          assert SameKey(p, b, other);
        }
      }
    }
  }

  lemma InvAfterBatch(p: Pool, q: Pool, ids: seq<nat>)
    requires forall id: nat :: id !in ids ==> Agrees(p, id) && SameKey(p, q, id)
    requires ListsUnique(q) && forall id :: id in ids ==> Agrees(q, id)
    ensures Inv(q)
  {
    forall id: nat ensures Agrees(q, id) {
      if id !in ids {
        SameKeyAgrees(p, q, id);
      }
    }
  }

  /** Ids the database has just handed out, in the order the rows were given. */
  ghost predicate FreshIds(p: Pool, added: Table, order: seq<nat>) {
    && NoDuplicates(order) && (forall id :: id in order <==> id in added)
    && forall id :: id in added ==> id !in p.db
  }

  lemma AddKeysKeepsInv(p: Pool, added: Table, order: seq<nat>)
    requires Inv(p) && FreshIds(p, added, order)
    ensures var q := AddKeys(p, added, order);
            && Inv(q)
            && q.db == (if Insertable(p.db, added) then p.db + added else p.db)
            && forall id: nat :: id !in order ==> SameKey(p, q, id)
  {
    if Insertable(p.db, added) {
      var w := p.(db := p.db + added);
      SameListsStayUnique(p, w);
      forall id | id in order ensures Awaiting(w, added, id) {
        assert Agrees(p, id);
      }
      AllCachedEffect(w, added, order);
      var q := AddKeys(p, added, order);
      forall id: nat | id !in order ensures Agrees(w, id) && SameKey(w, q, id) && SameKey(p, q, id) {
        assert SameKey(p, w, id);
        SameKeyAgrees(p, w, id);
      }
      InvAfterBatch(w, q, order);
    } else {
      forall id: nat ensures SameKey(p, p, id) {
      }
    }
  }

  /** No two rows of a group carry the same key text: the unique index. */
  ghost predicate UniqueKeys(db: Table) {
    forall i, j :: i in db && j in db && i != j ==> db[i].groupId != db[j].groupId || db[i].keyValue != db[j].keyValue
  }

  /** New rows are taken exactly when the unique index still holds with all of them, and otherwise none is. */
  lemma AddKeysKeepsUnique(p: Pool, added: Table, order: seq<nat>)
    requires Inv(p) && FreshIds(p, added, order) && UniqueKeys(p.db)
    ensures AddKeys(p, added, order).db == if UniqueKeys(p.db + added) then p.db + added else p.db
  {
    AddKeysKeepsInv(p, added, order);
    var db := p.db + added;
    if Insertable(p.db, added) {
      forall i, j | i in db && j in db && i != j
        ensures db[i].groupId != db[j].groupId || db[i].keyValue != db[j].keyValue
      {
        if i in added && j in added {
          assert !Clash(added[i], added[j]);
        } else if i in added {
          assert !Clash(added[i], p.db[j]);
        } else if j in added {
          assert !Clash(added[j], p.db[i]);
        }
      }
    } else if UniqueKeys(db) {
      forall i, j | i in added && j in p.db ensures !Clash(added[i], p.db[j]) {
        assert db[i] == added[i] && db[j] == p.db[j];
      }
      forall i, j | i in added && j in added && i != j ensures !Clash(added[i], added[j]) {
        assert db[i] == added[i] && db[j] == added[j];
      }
    }
  }

  /** Restoring makes the found keys active with no failures, lists each once, and touches no other key. */
  lemma RestoreKeepsInv(p: Pool, found: seq<nat>)
    requires Inv(p) && NoDuplicates(found)
    requires forall id :: id in found ==> id in p.db && p.db[id].status == Invalid
    ensures var q := RestoreRows(p, found);
            && Inv(q) && q.db == Restored(p.db, found)
            && forall id: nat :: id !in found ==> SameKey(p, q, id)
  {
    var w := p.(db := Restored(p.db, found));
    SameListsStayUnique(p, w);
    forall id | id in found ensures Awaiting(w, w.db, id) {
      assert Agrees(p, id);
    }
    AllCachedEffect(w, w.db, found);
    var q := RestoreRows(p, found);
    forall id: nat | id !in found ensures Agrees(w, id) && SameKey(w, q, id) && SameKey(p, q, id) {
      assert SameKey(p, w, id);
      SameKeyAgrees(p, w, id);
    }
    InvAfterBatch(w, q, found);
  }

  // ---------- Dropping a batch of rows ----------

  /** A deleted row that can still be cached and listed in the group it had. */
  ghost predicate Leaving(p: Pool, rows: Table, id: nat) {
    && id !in p.db && id in rows
    && forall gid: nat :: gid != rows[id].groupId ==> id !in Listed(p, gid)
  }

  lemma DroppedEffect(p: Pool, rows: Table, id: nat)
    requires Leaving(p, rows, id)
    ensures var q := Dropped(p, id, rows[id].groupId);
            Touches(p, q, id) && Agrees(q, id) && q.db == p.db
  {
    var gid := rows[id].groupId;
    var d := Delisted(p, gid, id);
    DelistedEffect(p, gid, id);
    SameListsStayUnique(d, WithoutKey(d, id));
    assert Touches(d, WithoutKey(d, id), id);
    TouchesIsTransitive(p, d, WithoutKey(d, id), id);
  }

  lemma {:induction false} AllDroppedEffect(p: Pool, rows: Table, order: seq<nat>)
    requires ListsUnique(p) && NoDuplicates(order)
    requires forall id :: id in order ==> id in rows
    requires forall id :: id in order ==> Leaving(p, rows, id)
    ensures var q := AllDropped(p, rows, order);
            && q.db == p.db && ListsUnique(q)
            && (forall id :: id in order ==> Agrees(q, id))
            && forall id: nat :: id !in order ==> SameKey(p, q, id)
  {
    if order != [] {
      var before, id := order[..|order| - 1], order[|order| - 1];
      AllDroppedEffect(p, rows, before);
      var b, q := AllDropped(p, rows, before), AllDropped(p, rows, order);
      assert id !in before && SameKey(p, b, id) && Leaving(p, rows, id);
      DroppedEffect(b, rows, id);
      forall other: nat | other != id
        ensures other in order ==> Agrees(q, other)
        ensures other !in order ==> SameKey(p, q, other)
      {
        assert SameKey(b, q, other);
        assert other in order <==> other in before;
        if other in order {
          SameKeyAgrees(b, q, other);
        } else {
          assert SameKey(p, b, other);
        }
      }
    }
  }

  lemma RemoveKeepsInv(p: Pool, found: seq<nat>)
    requires Inv(p) && NoDuplicates(found)
    requires forall id :: id in found ==> id in p.db
    ensures var q := RemoveRows(p, found);
            && Inv(q) && q.db == p.db - (set id | id in found)
            && forall id: nat :: id !in found ==> SameKey(p, q, id)
  {
    var w := p.(db := p.db - set id | id in found);
    SameListsStayUnique(p, w);
    forall id | id in found ensures Leaving(w, p.db, id) {
      assert Agrees(p, id);
    }
    AllDroppedEffect(w, p.db, found);
    var q := RemoveRows(p, found);
    forall id: nat | id !in found ensures Agrees(w, id) && SameKey(w, q, id) && SameKey(p, q, id) {
      assert SameKey(p, w, id);
      SameKeyAgrees(p, w, id);
    }
    InvAfterBatch(w, q, found);
  }

  // ---------- Recovering rate-limited keys ----------

  predicate Recoverable(row: Row, now: int) {
    row.status == RateLimited && (row.rateLimitResetAt == None || row.rateLimitResetAt.value <= now)
  }

  lemma RecoverOneEffect(p: Pool, id: nat)
    requires Agrees(p, id) && id in p.db && p.db[id].status != Active
    ensures var q := RecoverOne(p, id, p.db[id].groupId);
            Touches(p, q, id) && Agrees(q, id) && q.db == p.db[id := RecoveredRow(p.db[id])]
  {
    var row := RecoveredRow(p.db[id]);
    MirrorsStatus(p.hashes[id], id, p.db[id], Active);
    RowAndFields(p, id, row, map[STATUS := StatusText(Active)]);
    var w := WithFields(p.(db := p.db[id := row]), id, map[STATUS := StatusText(Active)]);
    PushedEffect(w, row.groupId, id);
    TouchesIsTransitive(p, w, Pushed(w, row.groupId, id), id);
  }

  /**
   Recovering a key keeps the agreement exactly when its row is still there, in the group the query saw,
   and has not become active in the meantime.
   */
  lemma RecoverOneKeepsInv(p: Pool, id: nat, gid: nat)
    requires Inv(p)
    ensures Inv(RecoverOne(p, id, gid)) <==> id in p.db && p.db[id].groupId == gid && p.db[id].status != Active
  {
    var q := RecoverOne(p, id, gid);
    assert Agrees(p, id);
    assert Listed(q, gid) == [id] + Listed(p, gid);
    if id in p.db && p.db[id].groupId == gid {
      if p.db[id].status == Active {
        TwiceIsDuplicate(id, Listed(p, gid));
      } else {
        RecoverOneEffect(p, id);
        InvAfterTouch(p, q, id);
      }
    } else {
      assert id in Listed(q, gid);
      assert !Agrees(q, id);
    }
  }

  lemma TwiceIsDuplicate(id: nat, list: seq<nat>)
    requires id in list
    ensures !NoDuplicates([id] + list)
  {
    var k :| 0 <= k < |list| && list[k] == id;
    assert ([id] + list)[0] == ([id] + list)[k + 1];
  }

  /** A key whose success lands between the recovery query and the recovery is listed twice. */
  lemma OvertakenRecoveryExample()
    ensures var row := Row("k", 1, RateLimited, 0, 1, Some(5), None, 0);
            var p := HandleSuccess(Pool(map[7 := row], map[7 := RowFields(7, row)], map[]), 7, 1);
            Listed(RecoverOne(p, 7, 1), 1) == [7, 7]
  {
    var row := Row("k", 1, RateLimited, 0, 1, Some(5), None, 0);
    assert RowFields(7, row)[STATUS] == "rate_limited";
  }

  ghost predicate BelowThreshold(db: Table, threshold: int) {
    forall id :: id in db && db[id].status != Invalid ==> db[id].failureCount < threshold
  }

  /** The key has been made invalid for its failures. */
  predicate Overtaken(db: Table, id: nat, threshold: int) {
    id in db && db[id].status == Invalid && db[id].failureCount >= threshold
  }

  /** Recovering a key that has become invalid lets it live on with the failures that made it so. */
  lemma RecoveredBelowThreshold(p: Pool, id: nat, gid: nat, threshold: int)
    requires BelowThreshold(p.db, threshold)
    ensures BelowThreshold(RecoverOne(p, id, gid).db, threshold) <==> !Overtaken(p.db, id, threshold)
  {
    var db := RecoverOne(p, id, gid).db;
    if id in p.db && p.db[id].failureCount >= threshold {
      assert db[id].failureCount >= threshold;
    }
  }

  function RecoveredTable(db: Table, found: seq<nat>): Table {
    map id | id in db :: if id in found then RecoveredRow(db[id]) else db[id]
  }

  /** The row is there, in the group the query saw it in, and not active. */
  predicate StillRecoverable(p: Pool, row: Row, id: nat) {
    id in p.db && p.db[id].groupId == row.groupId && p.db[id].status != Active
  }

  /**
   Recovery reactivates exactly the keys found, puts each into its list once although it pushes
   without removing first, and leaves every other key unchanged.
   */
  lemma {:induction false} RecoverKeepsInv(p: Pool, rows: Table, found: seq<nat>)
    requires Inv(p) && NoDuplicates(found)
    requires forall id :: id in found ==> id in rows && StillRecoverable(p, rows[id], id)
    ensures var q := RecoverAll(p, rows, found);
            && Inv(q) && q.db == RecoveredTable(p.db, found)
            && forall id: nat :: id !in found ==> SameKey(p, q, id)
  {
    var q := RecoverAll(p, rows, found);
    if found == [] {
      forall id: nat ensures SameKey(p, q, id) {
      }
    } else {
      var before, id := found[..|found| - 1], found[|found| - 1];
      RecoverKeepsInv(p, rows, before);
      var b := RecoverAll(p, rows, before);
      assert id !in before && StillRecoverable(p, rows[id], id) && SameKey(p, b, id) && Agrees(b, id);
      RecoverOneEffect(b, id);
      InvAfterTouch(b, q, id);
      assert forall other :: other in found <==> other in before || other == id;
      forall other: nat | other !in found ensures SameKey(p, q, other) {
        assert SameKey(p, b, other) && SameKey(b, q, other);
      }
    }
  }

  /** Some row of the group carries each listed id exactly once, so a recovered key is listed once. */
  lemma RecoveredKeyIsListedOnce(p: Pool, rows: Table, found: seq<nat>, id: nat)
    requires Inv(p) && NoDuplicates(found) && id in found
    requires forall k :: k in found ==> k in rows && StillRecoverable(p, rows[k], k)
    ensures multiset(Listed(RecoverAll(p, rows, found), rows[id].groupId))[id] == 1
  {
    RecoverKeepsInv(p, rows, found);
    var q := RecoverAll(p, rows, found);
    assert StillRecoverable(p, rows[id], id);
    assert Agrees(q, id);
    OnceIfUnique(Listed(q, rows[id].groupId), id);
  }

  /**
   Exactly the keys that were rate-limited and whose reset time was null or had come are active again, with
   no reset time and listed once; of every other key nothing has changed.
   */
  ghost predicate RecoveredWhenDue(p: Pool, q: Pool, now: int) {
    && q.db.Keys == p.db.Keys
    && (forall id :: id in p.db ==>
          var row := p.db[id];
          if row.status == RateLimited && (row.rateLimitResetAt == None || row.rateLimitResetAt.value <= now) then
            q.db[id] == row.(status := Active, rateLimitResetAt := None) && multiset(Listed(q, row.groupId))[id] == 1
          else SameKey(p, q, id))
    && forall id: nat :: id !in p.db ==> SameKey(p, q, id)
  }

  lemma RecoveryFindsWhatIsDue(p: Pool, found: seq<nat>, now: int)
    requires Inv(p) && NoDuplicates(found)
    requires forall id :: id in found <==> id in p.db && Recoverable(p.db[id], now)
    ensures var q := RecoverAll(p, p.db, found); Inv(q) && RecoveredWhenDue(p, q, now)
  {
    var q := RecoverAll(p, p.db, found);
    forall id | id in found ensures StillRecoverable(p, p.db[id], id) {
    }
    RecoverKeepsInv(p, p.db, found);
    forall id | id in found ensures multiset(Listed(q, p.db[id].groupId))[id] == 1 {
      RecoveredKeyIsListedOnce(p, p.db, found, id);
    }
  }

  lemma {:induction false} OnceIfUnique(s: seq<nat>, x: nat)
    requires NoDuplicates(s)
    ensures multiset(s)[x] == if x in s then 1 else 0
  {
    if s != [] {
      var n := |s| - 1;
      OnceIfUnique(s[..n], x);
      assert s == s[..n] + [s[n]];
      assert s[n] !in s[..n];
    }
  }

  /** The hash also forgets the reset time when the row has none. */
  predicate ShowsNoOldReset(p: Pool, id: nat) {
    id in p.db && p.db[id].rateLimitResetAt == None ==> RATE_LIMIT_RESET_AT !in Details(p, id)
  }

  /**
   Recovery sets the row's reset time to null but not the hash's: the hash is a full mirror afterwards
   exactly when there was no reset time to begin with.
   */
  lemma RecoveryLeavesStaleResetTime(p: Pool, id: nat)
    requires Agrees(p, id) && id in p.db && p.db[id].status != Active && ShowsNoOldReset(p, id)
    ensures ShowsNoOldReset(RecoverOne(p, id, p.db[id].groupId), id) <==> p.db[id].rateLimitResetAt == None
  {
    RecoverOneEffect(p, id);
  }

  /** A key limited until second 10 and recovered then: the row has no reset time, the selected key still does. */
  lemma StaleResetTimeExample()
    ensures var row := Row("k", 1, RateLimited, 0, 1, Some(5_000_000_000), Some(10_000_000_000), 0);
            var q := RecoverOne(Pool(map[7 := row], map[7 := RowFields(7, row)], map[]), 7, 1);
            && q.db[7].rateLimitResetAt == None
            && NextKey(q, 1) == Some(7)
            && Decoded(Details(q, 7), 7, 1).rateLimitResetAt == Some(10)
  {
    RoundTrip(10);
    var row := Row("k", 1, RateLimited, 0, 1, Some(5_000_000_000), Some(10_000_000_000), 0);
    assert TimeField(RATE_LIMIT_RESET_AT, row.rateLimitResetAt)[RATE_LIMIT_RESET_AT] == FormatInt(10);
    assert RowFields(7, row)[RATE_LIMIT_RESET_AT] == FormatInt(10);
  }

  // ---------- Deleting a group ----------

  /** The rows go, and with them the group's whole list and the rows' hashes. */
  function DeleteGroupKeys(p: Pool, gid: nat, found: seq<nat>): Pool {
    RemoveFromStore(p.(db := p.db - set id | id in found), gid, found)
  }

  /** Of two active keys of group 1 one is deleted: the other is still active, and listed nowhere. */
  lemma DeletedGroupExample()
    ensures var row, other := Row("k", 1, Active, 0, 0, None, None, 0), Row("l", 1, Active, 0, 0, None, None, 0);
            var p := LoadKeys(Pool(map[7 := row, 8 := other], map[], map[]), [7, 8]);
            var q := DeleteGroupKeys(p, 1, [7]);
            && 8 in Listed(p, 1) && 8 in q.db && q.db[8].status == Active && Listed(q, 1) == []
  {
    var row, other := Row("k", 1, Active, 0, 0, None, None, 0), Row("l", 1, Active, 0, 0, None, None, 0);
    LoadKeysEstablishesInv(map[7 := row, 8 := other], [7, 8]);
    assert Agrees(LoadKeys(Pool(map[7 := row, 8 := other], map[], map[]), [7, 8]), 8);
  }

  /** Dropping the whole list is right exactly when no active key of the group stays behind. */
  lemma DeletingGroupKeys(p: Pool, gid: nat, found: seq<nat>)
    requires Inv(p) && found != []
    requires forall id :: id in found ==> id in p.db && p.db[id].groupId == gid
    ensures Inv(DeleteGroupKeys(p, gid, found)) <==>
            forall id :: id in p.db && p.db[id].groupId == gid && p.db[id].status == Active ==> id in found
  {
    var q := DeleteGroupKeys(p, gid, found);
    assert Listed(q, gid) == [] && forall g: nat :: g != gid ==> Listed(q, g) == Listed(p, g);
    if forall id :: id in p.db && p.db[id].groupId == gid && p.db[id].status == Active ==> id in found {
      forall id: nat ensures Agrees(q, id) {
        assert Agrees(p, id);
      }
      forall g: nat ensures NoDuplicates(Listed(q, g)) {
        assert NoDuplicates(Listed(p, g));
      }
    } else {
      var id :| id in p.db && p.db[id].groupId == gid && p.db[id].status == Active && id !in found;
      assert id in q.db && id !in Listed(q, gid);
      assert !Agrees(q, id);
    }
  }

  // ---------- Loading the table into an empty store ----------

  function AllHashed(p: Pool, order: seq<nat>): Pool
    requires forall id :: id in order ==> id in p.db
    ensures AllHashed(p, order).db == p.db && AllHashed(p, order).lists == p.lists
  {
    if order == [] then p
    else
      var id := order[|order| - 1];
      WithFields(AllHashed(p, order[..|order| - 1]), id, RowFields(id, p.db[id]))
  }

  /** The active keys of a group, in the order the rows are read. */
  function ActiveOf(db: Table, order: seq<nat>, gid: nat): seq<nat>
    requires forall id :: id in order ==> id in db
  {
    if order == [] then []
    else
      var id := order[|order| - 1];
      ActiveOf(db, order[..|order| - 1], gid) + if db[id].groupId == gid && db[id].status == Active then [id] else []
  }

  function ActiveGroups(db: Table): set<nat> {
    set id | id in db && db[id].status == Active :: db[id].groupId
  }

  function ActiveLists(db: Table, order: seq<nat>): map<nat, seq<nat>>
    requires forall id :: id in order ==> id in db
  {
    map gid | gid in ActiveGroups(db) :: ActiveOf(db, order, gid)
  }

  function LoadKeys(p: Pool, order: seq<nat>): Pool
    requires forall id :: id in order ==> id in p.db
  {
    AllHashed(p, order).(lists := p.lists + ActiveLists(p.db, order))
  }

  lemma {:induction false} ActiveOfMembers(db: Table, order: seq<nat>, gid: nat)
    requires NoDuplicates(order) && forall id :: id in order ==> id in db
    ensures NoDuplicates(ActiveOf(db, order, gid))
    ensures forall id ::
              id in ActiveOf(db, order, gid) <==> id in order && db[id].groupId == gid && db[id].status == Active
  {
    if order != [] {
      var before, id := order[..|order| - 1], order[|order| - 1];
      ActiveOfMembers(db, before, gid);
      assert id !in before;
      assert forall other :: other in order <==> other in before || other == id;
    }
  }

  lemma HashedStep(p: Pool, b: Pool, id: nat)
    requires id in p.db && id !in b.hashes
    ensures WithFields(b, id, RowFields(id, p.db[id])).hashes == b.hashes[id := RowFields(id, p.db[id])]
  {
    assert map[] + RowFields(id, p.db[id]) == RowFields(id, p.db[id]);
  }

  lemma {:induction false} AllHashedEffect(p: Pool, order: seq<nat>)
    requires NoDuplicates(order) && forall id :: id in order ==> id in p.db && id !in p.hashes
    ensures var q := AllHashed(p, order);
            && (forall id :: id in q.hashes <==> id in p.hashes || id in order)
            && forall id :: id in order ==> q.hashes[id] == RowFields(id, p.db[id])
  {
    if order != [] {
      var before, id := order[..|order| - 1], order[|order| - 1];
      AllHashedEffect(p, before);
      assert id !in before;
      HashedStep(p, AllHashed(p, before), id);
      assert forall other :: other in order <==> other in before || other == id;
    }
  }

  /** The loaded list names the active keys in the order their rows were read. */
  lemma {:induction false} LoadedInOrder(db: Table, order: seq<nat>, gid: nat, i: nat, j: nat) returns (a: nat, b: nat)
    requires forall id :: id in order ==> id in db
    requires i < j < |ActiveOf(db, order, gid)|
    ensures a < b < |order| && order[a] == ActiveOf(db, order, gid)[i] && order[b] == ActiveOf(db, order, gid)[j]
  {
    var n := |order| - 1;
    var before := ActiveOf(db, order[..n], gid);
    if j < |before| {
      a, b := LoadedInOrder(db, order[..n], gid, i, j);
    } else {
      a := LoadedFrom(db, order[..n], gid, i);
      b := n;
    }
  }

  lemma {:induction false} LoadedFrom(db: Table, order: seq<nat>, gid: nat, i: nat) returns (a: nat)
    requires (forall id :: id in order ==> id in db) && i < |ActiveOf(db, order, gid)|
    ensures a < |order| && order[a] == ActiveOf(db, order, gid)[i]
  {
    var n := |order| - 1;
    if i < |ActiveOf(db, order[..n], gid)| {
      a := LoadedFrom(db, order[..n], gid, i);
    } else {
      a := n;
    }
  }

  /** Loading an arbitrary table into an empty store establishes the agreement. */
  lemma LoadKeysEstablishesInv(db: Table, order: seq<nat>)
    requires NoDuplicates(order) && forall id :: id in order <==> id in db
    ensures Inv(LoadKeys(Pool(db, map[], map[]), order))
  {
    var p := Pool(db, map[], map[]);
    var q := LoadKeys(p, order);
    AllHashedEffect(p, order);
    forall gid: nat ensures Listed(q, gid) == ActiveOf(db, order, gid) && NoDuplicates(Listed(q, gid)) {
      ActiveOfMembers(db, order, gid);
      if gid !in ActiveGroups(db) && ActiveOf(db, order, gid) != [] {
        assert ActiveOf(db, order, gid)[0] in ActiveOf(db, order, gid);
      }
    }
    forall id: nat ensures Agrees(q, id) {
      if id in db {
        MirrorsRow(map[], id, db[id]);
        HashedStep(p, p, id);
      }
      forall gid: nat
        ensures id in Listed(q, gid) <==> id in db && db[id].groupId == gid && db[id].status == Active
      {
        ActiveOfMembers(db, order, gid);
      }
    }
  }
}
