/**
 The key pool as a value: the api_keys table next to what the store caches of it.

 A key's row is mirrored by a hash of text fields, and its id is in the list of its group while it is
 active.  Every handler of the provider is a function on this value; `KeyProvider` carries the same
 handlers out on a text-keyed store.
 */
module Pools {
  import opened Wrappers
  import opened Decimal
  import opened Lists

  // ---------- Rows, hashes and lists ----------

  datatype Status = Active | Invalid | RateLimited

  function StatusText(s: Status): string {
    match s
    case Active => "active"
    case Invalid => "invalid"
    case RateLimited => "rate_limited"
  }

  /** A row of api_keys; times are nanoseconds since the epoch. */
  datatype Row = Row(keyValue: string, groupId: nat, status: Status, failureCount: int, rateLimitCount: int,
                     last429At: Option<int>, rateLimitResetAt: Option<int>, createdAt: int)

  type Table = map<nat, Row>

  type Fields = map<string, string>

  datatype Pool = Pool(db: Table, hashes: map<nat, Fields>, lists: map<nat, seq<nat>>)

  function Unix(nanos: int): int {
    nanos / 1_000_000_000
  }

  /** The whole seconds that have passed. */
  lemma UnixIsWholeSeconds(nanos: int)
    ensures Unix(nanos) * 1_000_000_000 <= nanos < (Unix(nanos) + 1) * 1_000_000_000
  {
  }

  function UnixTime(time: Option<int>): Option<int> {
    if time.Some? then Some(Unix(time.value)) else None
  }

  const ID := "id"
  const KEY_STRING := "key_string"
  const STATUS := "status"
  const FAILURE_COUNT := "failure_count"
  const RATE_LIMIT_COUNT := "rate_limit_count"
  const GROUP_ID := "group_id"
  const CREATED_AT := "created_at"
  const LAST_429_AT := "last_429_at"
  const RATE_LIMIT_RESET_AT := "rate_limit_reset_at"

  /** A key that is not cached reads as an empty hash. */
  function Details(p: Pool, id: nat): Fields {
    if id in p.hashes then p.hashes[id] else map[]
  }

  function Listed(p: Pool, gid: nat): seq<nat> {
    if gid in p.lists then p.lists[gid] else []
  }

  /** Reading a missing field gives the empty text. */
  function Field(h: Fields, name: string): string {
    if name in h then h[name] else ""
  }

  // ---------- Updates of the cached side ----------

  function WithFields(p: Pool, id: nat, fields: Fields): Pool {
    p.(hashes := p.hashes[id := Details(p, id) + fields])
  }

  function WithoutKey(p: Pool, id: nat): Pool {
    p.(hashes := p.hashes - {id})
  }

  /** Removing from a list that does not exist does not create it. */
  function Delisted(p: Pool, gid: nat, id: nat): Pool {
    if gid in p.lists then p.(lists := p.lists[gid := Without(p.lists[gid], id)]) else p
  }

  function Pushed(p: Pool, gid: nat, id: nat): Pool {
    p.(lists := p.lists[gid := [id] + Listed(p, gid)])
  }

  function Relisted(p: Pool, gid: nat, id: nat): Pool {
    Pushed(Delisted(p, gid, id), gid, id)
  }

  // ---------- Selecting a key ----------

  datatype ApiKey = ApiKey(id: nat, keyValue: string, status: string, failureCount: int, rateLimitCount: int,
                           groupId: nat, createdAt: int, last429At: Option<int>, rateLimitResetAt: Option<int>)

  /** The hash of a key decoded into what a request works with. */
  function Decoded(h: Fields, id: nat, gid: nat): ApiKey {
    ApiKey(id, Field(h, KEY_STRING), Field(h, STATUS), ParseOrZero(Field(h, FAILURE_COUNT)),
           ParseOrZero(Field(h, RATE_LIMIT_COUNT)), gid, ParseOrZero(Field(h, CREATED_AT)),
           ParseStrict(Field(h, LAST_429_AT)), ParseStrict(Field(h, RATE_LIMIT_RESET_AT)))
  }

  /** The id selected next; none when the list is missing or empty. */
  function NextKey(p: Pool, gid: nat): Option<nat> {
    var list := Listed(p, gid);
    if list == [] then None else Some(list[|list| - 1])
  }

  function Select(p: Pool, gid: nat): Pool {
    if Listed(p, gid) == [] then p else p.(lists := p.lists[gid := Rotated(p.lists[gid])])
  }

  // ---------- Status updates ----------

  function TimeField(name: string, time: Option<int>): Fields {
    if time.Some? then map[name := FormatInt(Unix(time.value))] else map[]
  }

  function HandleSuccess(p: Pool, id: nat, gid: nat): Pool {
    var h := Details(p, id);
    var isActive := Field(h, STATUS) == StatusText(Active);
    if (ParseOrZero(Field(h, FAILURE_COUNT)) == 0 && isActive) || id !in p.db then p
    else
      var row := p.db[id].(failureCount := 0);
      var fields := map[FAILURE_COUNT := FormatInt(0)];
      if isActive then
        WithFields(p.(db := p.db[id := row]), id, fields)
      else
        var q := WithFields(p.(db := p.db[id := row.(status := Active)]), id, fields[STATUS := StatusText(Active)]);
        Relisted(q, gid, id)
  }

  function HandleFailure(p: Pool, id: nat, gid: nat, threshold: int): Pool {
    var h := Details(p, id);
    if Field(h, STATUS) == StatusText(Invalid) || id !in p.db then p
    else
      var count := ParseOrZero(Field(h, FAILURE_COUNT)) + 1;
      var row := p.db[id].(failureCount := count);
      if threshold > 0 && count >= threshold then
        var q := WithFields(p.(db := p.db[id := row.(status := Invalid)]), id, map[FAILURE_COUNT := FormatInt(count)]);
        WithFields(Delisted(q, gid, id), id, map[STATUS := StatusText(Invalid)])
      else
        WithFields(p.(db := p.db[id := row]), id, map[FAILURE_COUNT := FormatInt(count)])
  }

  function HandleRateLimit(p: Pool, id: nat, gid: nat, now: int, resetAt: Option<int>): Pool {
    if Field(Details(p, id), STATUS) == StatusText(Invalid) || id !in p.db then p
    else
      var count := p.db[id].rateLimitCount + 1;
      var row := p.db[id].(rateLimitCount := count, last429At := Some(now), status := RateLimited,
                           rateLimitResetAt := if resetAt.Some? then resetAt else p.db[id].rateLimitResetAt);
      var fields := map[STATUS := StatusText(RateLimited), RATE_LIMIT_COUNT := FormatInt(count),
                        LAST_429_AT := FormatInt(Unix(now))] + TimeField(RATE_LIMIT_RESET_AT, resetAt);
      Delisted(WithFields(p.(db := p.db[id := row]), id, fields), gid, id)
  }

  // ---------- Batches ----------

  /** The hash fields a row is written as. */
  function RowFields(id: nat, row: Row): Fields {
    map[ID := FormatInt(id), KEY_STRING := row.keyValue, STATUS := StatusText(row.status),
        FAILURE_COUNT := FormatInt(row.failureCount), RATE_LIMIT_COUNT := FormatInt(row.rateLimitCount),
        GROUP_ID := FormatInt(row.groupId), CREATED_AT := FormatInt(Unix(row.createdAt))]
    + TimeField(LAST_429_AT, row.last429At)
    + TimeField(RATE_LIMIT_RESET_AT, row.rateLimitResetAt)
  }

  /** A rate-limited key as the store shows it. */
  lemma CachedRowExample(row: Row)
    requires row == Row("k", 3, RateLimited, 2, 1, Some(5_000_000_000), Some(8_999_999_999), 1_000_000_000)
    ensures var h := RowFields(7, row);
            && Shows(h, "id", "7") && Shows(h, "key_string", "k") && Shows(h, "status", "rate_limited")
            && Shows(h, "failure_count", "2") && Shows(h, "rate_limit_count", "1") && Shows(h, "group_id", "3")
            && Shows(h, "created_at", "1") && Shows(h, "last_429_at", "5") && Shows(h, "rate_limit_reset_at", "8")
  {
  }

  function Cached(p: Pool, id: nat, row: Row): Pool {
    var q := WithFields(p, id, RowFields(id, row));
    if row.status == Active then Relisted(q, row.groupId, id) else q
  }

  /** Caching the rows named by `order`, first to last. */
  function AllCached(p: Pool, rows: Table, order: seq<nat>): Pool
    requires forall id :: id in order ==> id in rows
  {
    if order == [] then p
    else
      var id := order[|order| - 1];
      Cached(AllCached(p, rows, order[..|order| - 1]), id, rows[id])
  }

  function Dropped(p: Pool, id: nat, gid: nat): Pool {
    WithoutKey(Delisted(p, gid, id), id)
  }

  function AllDropped(p: Pool, rows: Table, order: seq<nat>): Pool
    requires forall id :: id in order ==> id in rows
  {
    if order == [] then p
    else
      var id := order[|order| - 1];
      Dropped(AllDropped(p, rows, order[..|order| - 1]), id, rows[id].groupId)
  }

  /** Two rows that the unique index on (group_id, key_value) does not let live side by side. */
  predicate Clash(a: Row, b: Row) {
    a.groupId == b.groupId && a.keyValue == b.keyValue
  }

  predicate Insertable(db: Table, added: Table) {
    && (forall i, j :: i in added && j in added && i != j ==> !Clash(added[i], added[j]))
    && (forall i, j :: i in added && j in db ==> !Clash(added[i], db[j]))
  }

  /** New rows under the ids the database assigned; a violated unique index leaves everything as it was. */
  function AddKeys(p: Pool, added: Table, order: seq<nat>): Pool
    requires forall id :: id in order ==> id in added
  {
    if !Insertable(p.db, added) then p
    else AllCached(p.(db := p.db + added), added, order)
  }

  function RemoveRows(p: Pool, found: seq<nat>): Pool
    requires forall id :: id in found ==> id in p.db
  {
    AllDropped(p.(db := p.db - set id | id in found), p.db, found)
  }

  /** The table with the found rows active again and their failures forgotten. */
  function Restored(db: Table, found: seq<nat>): Table {
    map id | id in db :: if id in found then db[id].(status := Active, failureCount := 0) else db[id]
  }

  function RestoreRows(p: Pool, found: seq<nat>): Pool
    requires forall id :: id in found ==> id in p.db
  {
    AllCached(p.(db := Restored(p.db, found)), Restored(p.db, found), found)
  }

  function RecoveredRow(row: Row): Row {
    row.(status := Active, rateLimitResetAt := None)
  }

  /**
   Recovery pushes the key without removing it from the list first, and leaves its old reset field behind.
   It does not look whether the row is still there, or still as the query that found it saw it.
   */
  function RecoverOne(p: Pool, id: nat, gid: nat): Pool {
    var db := if id in p.db then p.db[id := RecoveredRow(p.db[id])] else p.db;
    Pushed(WithFields(p.(db := db), id, map[STATUS := StatusText(Active)]), gid, id)
  }

  /** Recovering the keys found in turn; `rows` is what the query returned. */
  function RecoverAll(p: Pool, rows: Table, found: seq<nat>): Pool
    requires forall id :: id in found ==> id in rows
  {
    if found == [] then p
    else
      var id := found[|found| - 1];
      RecoverOne(RecoverAll(p, rows, found[..|found| - 1]), id, rows[id].groupId)
  }

  /** The whole list of the group goes, and the hashes of the given keys. */
  function RemoveFromStore(p: Pool, gid: nat, ids: seq<nat>): Pool {
    if ids == [] then p else p.(lists := p.lists - {gid}, hashes := p.hashes - set id | id in ids)
  }

  // ---------- The agreement between table, hashes and lists ----------

  predicate Shows(h: Fields, name: string, text: string) {
    name in h && h[name] == text
  }

  predicate ShowsTime(h: Fields, name: string, time: Option<int>) {
    time.Some? ==> Shows(h, name, FormatInt(Unix(time.value)))
  }

  /**
   The hash shows the row, field by field.  The reset time is the exception: a row without one may
   still be shown with an old one (see `RecoveryLeavesStaleResetTime`).
   */
  predicate Mirrors(h: Fields, id: nat, row: Row) {
    && Shows(h, ID, FormatInt(id))
    && Shows(h, KEY_STRING, row.keyValue)
    && Shows(h, STATUS, StatusText(row.status))
    && Shows(h, FAILURE_COUNT, FormatInt(row.failureCount))
    && Shows(h, RATE_LIMIT_COUNT, FormatInt(row.rateLimitCount))
    && Shows(h, GROUP_ID, FormatInt(row.groupId))
    && Shows(h, CREATED_AT, FormatInt(Unix(row.createdAt)))
    && ShowsTime(h, LAST_429_AT, row.last429At)
    && (row.last429At == None ==> LAST_429_AT !in h)
    && ShowsTime(h, RATE_LIMIT_RESET_AT, row.rateLimitResetAt)
  }

  /** A cached key is a row, mirrored, and listed in its own group exactly while it is active. */
  ghost predicate Agrees(p: Pool, id: nat) {
    && (id in p.db <==> id in p.hashes)
    && (id in p.db ==> Mirrors(p.hashes[id], id, p.db[id]))
    && forall gid: nat :: id in Listed(p, gid) <==> id in p.db && p.db[id].groupId == gid && p.db[id].status == Active
  }

  ghost predicate ListsUnique(p: Pool) {
    forall gid: nat :: NoDuplicates(Listed(p, gid))
  }

  /** What every step of the pool keeps: each key agrees, and no list names a key twice. */
  ghost predicate Inv(p: Pool) {
    ListsUnique(p) && forall id: nat :: Agrees(p, id)
  }

  /** Nothing about key `id` differs between the two pools. */
  ghost predicate SameKey(p: Pool, q: Pool, id: nat) {
    && (id in p.db <==> id in q.db) && (id in p.db ==> p.db[id] == q.db[id])
    && (id in p.hashes <==> id in q.hashes) && (id in p.hashes ==> p.hashes[id] == q.hashes[id])
    && forall gid: nat :: id in Listed(p, gid) <==> id in Listed(q, gid)
  }

  /** The step from p to q concerns key `id` alone. */
  ghost predicate Touches(p: Pool, q: Pool, id: nat) {
    && (ListsUnique(p) ==> ListsUnique(q))
    && forall other: nat :: other != id ==> SameKey(p, q, other)
  }

  lemma TouchesIsTransitive(p: Pool, q: Pool, r: Pool, id: nat)
    requires Touches(p, q, id) && Touches(q, r, id)
    ensures Touches(p, r, id)
  {
    forall other: nat | other != id ensures SameKey(p, r, other) {
      assert SameKey(p, q, other) && SameKey(q, r, other);
    }
  }

  lemma SameKeyAgrees(p: Pool, q: Pool, id: nat)
    requires SameKey(p, q, id) && Agrees(p, id)
    ensures Agrees(q, id)
  {
  }

  lemma InvAfterTouch(p: Pool, q: Pool, id: nat)
    requires Inv(p) && Touches(p, q, id) && Agrees(q, id)
    ensures Inv(q)
  {
    forall other: nat ensures Agrees(q, other) {
      if other != id {
        SameKeyAgrees(p, q, other);
      }
    }
  }

  // ---------- What each update touches ----------

  lemma SameListsStayUnique(p: Pool, q: Pool)
    requires p.lists == q.lists
    ensures ListsUnique(p) ==> ListsUnique(q)
    ensures forall gid: nat :: Listed(q, gid) == Listed(p, gid)
  {
    forall gid: nat ensures ListsUnique(p) ==> NoDuplicates(Listed(q, gid)) {
      assert Listed(q, gid) == Listed(p, gid);
    }
  }

  lemma RowTouches(p: Pool, id: nat, row: Row)
    ensures Touches(p, p.(db := p.db[id := row]), id)
  {
    SameListsStayUnique(p, p.(db := p.db[id := row]));
  }

  lemma FieldsTouch(p: Pool, id: nat, fields: Fields)
    ensures Touches(p, WithFields(p, id, fields), id)
  {
    SameListsStayUnique(p, WithFields(p, id, fields));
  }

  lemma DelistedEffect(p: Pool, gid: nat, id: nat)
    ensures var q := Delisted(p, gid, id);
            && Touches(p, q, id)
            && q.db == p.db && q.hashes == p.hashes
            && Listed(q, gid) == Without(Listed(p, gid), id) && id !in Listed(q, gid)
            && forall g :: g != gid ==> Listed(q, g) == Listed(p, g)
  {
    var q := Delisted(p, gid, id);
    WithoutMembers(Listed(p, gid), id);
    if ListsUnique(p) {
      forall g: nat ensures NoDuplicates(Listed(q, g)) {
        assert NoDuplicates(Listed(p, g));
      }
    }
  }

  lemma PushedEffect(p: Pool, gid: nat, id: nat)
    requires id !in Listed(p, gid)
    ensures var q := Pushed(p, gid, id);
            && Touches(p, q, id)
            && q.db == p.db && q.hashes == p.hashes
            && Listed(q, gid) == [id] + Listed(p, gid)
            && forall g :: g != gid ==> Listed(q, g) == Listed(p, g)
  {
    var q := Pushed(p, gid, id);
    assert forall k :: k in Listed(q, gid) <==> k == id || k in Listed(p, gid);
    if ListsUnique(p) {
      forall g: nat ensures NoDuplicates(Listed(q, g)) {
        assert NoDuplicates(Listed(p, g));
      }
    }
  }

  lemma RelistedEffect(p: Pool, gid: nat, id: nat)
    ensures var q := Relisted(p, gid, id);
            && Touches(p, q, id)
            && q.db == p.db && q.hashes == p.hashes
            && Listed(q, gid) == [id] + Without(Listed(p, gid), id)
            && forall g :: g != gid ==> Listed(q, g) == Listed(p, g)
  {
    DelistedEffect(p, gid, id);
    PushedEffect(Delisted(p, gid, id), gid, id);
    TouchesIsTransitive(p, Delisted(p, gid, id), Relisted(p, gid, id), id);
  }

  // ---------- Single-key steps keep the agreement ----------

  lemma SelectKeepsInv(p: Pool, gid: nat)
    requires Inv(p)
    ensures Inv(Select(p, gid))
    ensures forall id: nat :: SameKey(p, Select(p, gid), id)
  {
    var q := Select(p, gid);
    if Listed(p, gid) != [] {
      RotatedMembers(p.lists[gid]);
    }
    forall g: nat ensures NoDuplicates(Listed(q, g)) {
      assert NoDuplicates(Listed(p, g));
    }
    forall id: nat ensures SameKey(p, q, id) && Agrees(q, id) {
      SameKeyAgrees(p, q, id);
    }
  }

  /**
   The selected key is an active row of the group, decoded as it stands in the table; an old reset time
   shows only where the row has none (see `RecoveryLeavesStaleResetTime`).
   */
  lemma SelectedKeyIsActive(p: Pool, gid: nat)
    requires Inv(p) && NextKey(p, gid).Some?
    ensures var id := NextKey(p, gid).value; var key := Decoded(Details(p, id), id, gid);
            && id in p.db && p.db[id].groupId == gid && p.db[id].status == Active
            && key.keyValue == p.db[id].keyValue && key.status == StatusText(Active)
            && key.failureCount == p.db[id].failureCount && key.rateLimitCount == p.db[id].rateLimitCount
            && key.createdAt == Unix(p.db[id].createdAt)
            && key.last429At == UnixTime(p.db[id].last429At)
            && (p.db[id].rateLimitResetAt.Some? || RATE_LIMIT_RESET_AT !in p.hashes[id] ==>
                  key.rateLimitResetAt == UnixTime(p.db[id].rateLimitResetAt))
  {
    var id := NextKey(p, gid).value;
    assert Agrees(p, id);
    RoundTrip(p.db[id].failureCount);
    RoundTrip(p.db[id].rateLimitCount);
    RoundTrip(Unix(p.db[id].createdAt));
    TimeIsRead(p.hashes[id], LAST_429_AT, p.db[id].last429At);
    TimeIsRead(p.hashes[id], RATE_LIMIT_RESET_AT, p.db[id].rateLimitResetAt);
  }

  lemma TimeIsRead(h: Fields, name: string, time: Option<int>)
    requires ShowsTime(h, name, time)
    ensures time.Some? || name !in h ==> ParseStrict(Field(h, name)) == UnixTime(time)
  {
    if time.Some? {
      RoundTrip(Unix(time.value));
    }
  }

  /** A row and its hash written together, with the list left alone. */
  lemma RowAndFields(p: Pool, id: nat, row: Row, fields: Fields)
    ensures var q := WithFields(p.(db := p.db[id := row]), id, fields);
            && Touches(p, q, id)
            && q.db == p.db[id := row] && q.hashes == p.hashes[id := Details(p, id) + fields]
            && forall gid: nat :: Listed(q, gid) == Listed(p, gid)
  {
    RowTouches(p, id, row);
    FieldsTouch(p.(db := p.db[id := row]), id, fields);
    TouchesIsTransitive(p, p.(db := p.db[id := row]), WithFields(p.(db := p.db[id := row]), id, fields), id);
  }

  // ---------- What field updates do to the mirror ----------

  lemma MirrorsCount(h: Fields, id: nat, row: Row, count: int)
    requires Mirrors(h, id, row)
    ensures Mirrors(h + map[FAILURE_COUNT := FormatInt(count)], id, row.(failureCount := count))
  {
  }

  lemma MirrorsStatus(h: Fields, id: nat, row: Row, status: Status)
    requires Mirrors(h, id, row)
    ensures Mirrors(h + map[STATUS := StatusText(status)], id, row.(status := status))
  {
  }

  lemma MirrorsRateLimit(h: Fields, id: nat, row: Row, count: int, now: int, resetAt: Option<int>)
    requires Mirrors(h, id, row)
    ensures Mirrors(h + (map[STATUS := StatusText(RateLimited), RATE_LIMIT_COUNT := FormatInt(count),
                             LAST_429_AT := FormatInt(Unix(now))] + TimeField(RATE_LIMIT_RESET_AT, resetAt)), id,
                    row.(rateLimitCount := count, last429At := Some(now), status := RateLimited,
                         rateLimitResetAt := if resetAt.Some? then resetAt else row.rateLimitResetAt))
  {
  }

  lemma MirrorsRow(h: Fields, id: nat, row: Row)
    requires row.last429At == None ==> LAST_429_AT !in h
    ensures Mirrors(h + RowFields(id, row), id, row)
  {
    var early := map[ID := FormatInt(id), KEY_STRING := row.keyValue, STATUS := StatusText(row.status),
                     FAILURE_COUNT := FormatInt(row.failureCount), RATE_LIMIT_COUNT := FormatInt(row.rateLimitCount),
                     GROUP_ID := FormatInt(row.groupId), CREATED_AT := FormatInt(Unix(row.createdAt))];
    assert LAST_429_AT !in early && RATE_LIMIT_RESET_AT !in early;
  }

  // ---------- The three status updates ----------

  lemma SuccessOnActive(p: Pool, id: nat, gid: nat)
    requires Inv(p) && id in p.db && p.db[id].groupId == gid && p.db[id].status == Active
    ensures var q := HandleSuccess(p, id, gid);
            && Touches(p, q, id) && Agrees(q, id) && q.db == p.db[id := p.db[id].(failureCount := 0)]
  {
    assert Agrees(p, id);
    RoundTrip(p.db[id].failureCount);
    if p.db[id].failureCount != 0 {
      RowAndFields(p, id, p.db[id].(failureCount := 0), map[FAILURE_COUNT := FormatInt(0)]);
      MirrorsCount(p.hashes[id], id, p.db[id], 0);
    }
  }

  lemma SuccessOnInactive(p: Pool, id: nat, gid: nat)
    requires Inv(p) && id in p.db && p.db[id].groupId == gid && p.db[id].status != Active
    ensures var q := HandleSuccess(p, id, gid);
            && Touches(p, q, id) && Agrees(q, id)
            && q.db == p.db[id := p.db[id].(failureCount := 0, status := Active)]
  {
    assert Agrees(p, id);
    var h, row := p.hashes[id], p.db[id].(failureCount := 0, status := Active);
    var fields := map[FAILURE_COUNT := FormatInt(0)][STATUS := StatusText(Active)];
    RowAndFields(p, id, row, fields);
    MirrorsCount(h, id, p.db[id], 0);
    MirrorsStatus(h + map[FAILURE_COUNT := FormatInt(0)], id, p.db[id].(failureCount := 0), Active);
    assert h + fields == h + map[FAILURE_COUNT := FormatInt(0)] + map[STATUS := StatusText(Active)];
    var w := WithFields(p.(db := p.db[id := row]), id, fields);
    RelistedEffect(w, gid, id);
    TouchesIsTransitive(p, w, Relisted(w, gid, id), id);
  }

  /** A success clears the failures of its key, makes it active again, and touches no other key. */
  lemma SuccessKeepsInv(p: Pool, id: nat, gid: nat)
    requires Inv(p) && (id in p.db ==> p.db[id].groupId == gid)
    ensures var q := HandleSuccess(p, id, gid);
            && Inv(q) && Touches(p, q, id)
            && q.db == if id in p.db then p.db[id := p.db[id].(failureCount := 0, status := Active)] else p.db
  {
    var q := HandleSuccess(p, id, gid);
    assert Agrees(p, id);
    if id in p.db && p.db[id].status == Active {
      SuccessOnActive(p, id, gid);
    } else if id in p.db {
      SuccessOnInactive(p, id, gid);
    }
    InvAfterTouch(p, q, id);
  }

  /** The pool after the row and the cached count of key `id` are written. */
  function WithFailures(p: Pool, id: nat, row: Row): Pool {
    WithFields(p.(db := p.db[id := row]), id, map[FAILURE_COUNT := FormatInt(row.failureCount)])
  }

  lemma FailureSteps(p: Pool, id: nat, gid: nat, threshold: int)
    requires Agrees(p, id) && id in p.db && p.db[id].status != Invalid
    ensures var count := p.db[id].failureCount + 1; var row := p.db[id].(failureCount := count);
            HandleFailure(p, id, gid, threshold) ==
            if threshold > 0 && count >= threshold then
              WithFields(Delisted(WithFailures(p, id, row.(status := Invalid)), gid, id), id,
                         map[STATUS := StatusText(Invalid)])
            else WithFailures(p, id, row)
  {
    RoundTrip(p.db[id].failureCount);
  }

  lemma FailuresTouch(p: Pool, id: nat, row: Row)
    requires Agrees(p, id) && id in p.db
    ensures var q := WithFailures(p, id, row);
            && Touches(p, q, id) && q.db == p.db[id := row] && (forall g: nat :: Listed(q, g) == Listed(p, g))
            && id in q.hashes && Mirrors(q.hashes[id], id, p.db[id].(failureCount := row.failureCount))
  {
    MirrorsCount(p.hashes[id], id, p.db[id], row.failureCount);
    RowAndFields(p, id, row, map[FAILURE_COUNT := FormatInt(row.failureCount)]);
  }

  lemma FailureBelow(p: Pool, id: nat, gid: nat, threshold: int)
    requires Inv(p) && id in p.db && p.db[id].groupId == gid && p.db[id].status != Invalid
    requires threshold <= 0 || p.db[id].failureCount + 1 < threshold
    ensures var q := HandleFailure(p, id, gid, threshold);
            && Touches(p, q, id) && Agrees(q, id)
            && q.db == p.db[id := p.db[id].(failureCount := p.db[id].failureCount + 1)]
  {
    assert Agrees(p, id);
    FailureSteps(p, id, gid, threshold);
    FailuresTouch(p, id, p.db[id].(failureCount := p.db[id].failureCount + 1));
  }

  lemma FailureReaching(p: Pool, id: nat, gid: nat, threshold: int)
    requires Inv(p) && id in p.db && p.db[id].groupId == gid && p.db[id].status != Invalid
    requires 0 < threshold <= p.db[id].failureCount + 1
    ensures var q := HandleFailure(p, id, gid, threshold);
            && Touches(p, q, id) && Agrees(q, id)
            && q.db == p.db[id := p.db[id].(failureCount := p.db[id].failureCount + 1, status := Invalid)]
  {
    assert Agrees(p, id);
    FailureSteps(p, id, gid, threshold);
    var row := p.db[id].(failureCount := p.db[id].failureCount + 1);
    FailuresTouch(p, id, row.(status := Invalid));
    BlacklistEffect(p, WithFailures(p, id, row.(status := Invalid)), id, gid, row);
  }

  // The last two store updates of a failure that reaches the threshold.
  lemma BlacklistEffect(p: Pool, w: Pool, id: nat, gid: nat, row: Row)
    requires Touches(p, w, id) && id in w.hashes && id in w.db && w.db[id] == row.(status := Invalid)
    requires Mirrors(w.hashes[id], id, row) && row.groupId == gid
    requires forall g: nat :: id in Listed(w, g) ==> g == gid
    ensures var q := WithFields(Delisted(w, gid, id), id, map[STATUS := StatusText(Invalid)]);
            Touches(p, q, id) && Agrees(q, id) && q.db == w.db
  {
    var d := Delisted(w, gid, id);
    DelistedEffect(w, gid, id);
    FieldsTouch(d, id, map[STATUS := StatusText(Invalid)]);
    var q := WithFields(d, id, map[STATUS := StatusText(Invalid)]);
    SameListsStayUnique(d, q);
    TouchesIsTransitive(p, w, d, id);
    TouchesIsTransitive(p, d, q, id);
    MirrorsStatus(w.hashes[id], id, row, Invalid);
  }

  /**
   A failure counts once on every key that is not invalid, and the one that reaches the threshold
   makes the key invalid; a failure of an invalid key changes nothing.
   */
  lemma FailureKeepsInv(p: Pool, id: nat, gid: nat, threshold: int)
    requires Inv(p) && (id in p.db ==> p.db[id].groupId == gid)
    ensures var q := HandleFailure(p, id, gid, threshold);
            && Inv(q) && Touches(p, q, id)
            && (id !in p.db || p.db[id].status == Invalid ==> q == p)
            && (id in p.db && p.db[id].status != Invalid ==>
                  var count := p.db[id].failureCount + 1;
                  q.db == p.db[id := if threshold > 0 && count >= threshold
                                     then p.db[id].(failureCount := count, status := Invalid)
                                     else p.db[id].(failureCount := count)])
  {
    assert Agrees(p, id);
    if id in p.db && p.db[id].status != Invalid {
      if threshold > 0 && p.db[id].failureCount + 1 >= threshold {
        FailureReaching(p, id, gid, threshold);
      } else {
        FailureBelow(p, id, gid, threshold);
      }
    }
    InvAfterTouch(p, HandleFailure(p, id, gid, threshold), id);
  }

  lemma RateLimitEffect(p: Pool, id: nat, gid: nat, now: int, resetAt: Option<int>)
    requires Inv(p) && id in p.db && p.db[id].groupId == gid && p.db[id].status != Invalid
    ensures var q := HandleRateLimit(p, id, gid, now, resetAt);
            Touches(p, q, id) && Agrees(q, id)
  {
    assert Agrees(p, id);
    var count := p.db[id].rateLimitCount + 1;
    var row := p.db[id].(rateLimitCount := count, last429At := Some(now), status := RateLimited,
                         rateLimitResetAt := if resetAt.Some? then resetAt else p.db[id].rateLimitResetAt);
    var fields := map[STATUS := StatusText(RateLimited), RATE_LIMIT_COUNT := FormatInt(count),
                      LAST_429_AT := FormatInt(Unix(now))] + TimeField(RATE_LIMIT_RESET_AT, resetAt);
    MirrorsRateLimit(p.hashes[id], id, p.db[id], count, now, resetAt);
    RowAndFields(p, id, row, fields);
    var w := WithFields(p.(db := p.db[id := row]), id, fields);
    DelistedEffect(w, gid, id);
    TouchesIsTransitive(p, w, Delisted(w, gid, id), id);
  }

  /** A rate limit takes its key out of rotation, whatever its failures; an invalid key stays as it is. */
  lemma RateLimitKeepsInv(p: Pool, id: nat, gid: nat, now: int, resetAt: Option<int>)
    requires Inv(p) && (id in p.db ==> p.db[id].groupId == gid)
    ensures var q := HandleRateLimit(p, id, gid, now, resetAt);
            && Inv(q) && Touches(p, q, id)
            && (id !in p.db || p.db[id].status == Invalid ==> q == p)
            && (id in p.db && p.db[id].status != Invalid ==>
                  q.db == p.db[id := p.db[id].(rateLimitCount := p.db[id].rateLimitCount + 1,
                                               last429At := Some(now), status := RateLimited,
                                               rateLimitResetAt := if resetAt.Some? then resetAt
                                                                   else p.db[id].rateLimitResetAt)])
  {
    assert Agrees(p, id);
    if id in p.db && p.db[id].status != Invalid {
      RateLimitEffect(p, id, gid, now, resetAt);
    }
    InvAfterTouch(p, HandleRateLimit(p, id, gid, now, resetAt), id);
  }
}
