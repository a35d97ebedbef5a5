/**
 The request log buffer: logs wait in the store until a flush writes them to the database in batches.

 A log is identified by its key in the store, "request_log:<id>".
 */
module RequestLogs {
  import opened Wrappers
  import opened Lists
  import Slots
  import opened MemoryStores
  import opened HourlyStats

  const CACHE_PREFIX := "request_log:"
  const PENDING_KEYS := "pending_log_keys"
  const BATCH_SIZE := 200
  const MINUTE := 60_000_000_000

  type LogStore = Slots.Data<RequestLog>

  function CacheKey(id: string): string {
    CACHE_PREFIX + id
  }

  lemma PendingKeysIsNoCacheKey(id: string)
    ensures CacheKey(id) != PENDING_KEYS
  {
    assert CacheKey(id)[0] == 'r' && PENDING_KEYS[0] == 'p';
  }

  // ---------- Where every recorded log is ----------

  /** What is known of a recorded log: its row and when its body expires (0 means never). */
  datatype Recorded = Recorded(log: RequestLog, expiresAt: int)

  predicate Lapsed(r: Recorded, now: int) {
    r.expiresAt > 0 && now > r.expiresAt
  }

  predicate LapsedKey(recorded: map<string, Recorded>, key: string, now: int) {
    key in recorded && Lapsed(recorded[key], now)
  }

  function LapsedOf(recorded: map<string, Recorded>, keys: set<string>, now: int): set<string> {
    set key | key in keys && LapsedKey(recorded, key, now)
  }

  function Pending(data: LogStore): set<string> {
    match Slots.MembersOf(Slots.At(data, PENDING_KEYS))
    case Ok(members) => members
    case Err(_) => {}
  }

  function Stored(rows: seq<RequestLog>): set<string> {
    set i | 0 <= i < |rows| :: CacheKey(rows[i].id)
  }

  /** The body of a waiting log is still in the store, or it has expired. */
  predicate Waits(data: LogStore, recorded: map<string, Recorded>, key: string, clock: int) {
    && key in recorded && key == CacheKey(recorded[key].log.id)
    && match Slots.At(data, key)
       case None => Lapsed(recorded[key], clock)
       case Some(v) => v == Slots.Item(recorded[key].log, recorded[key].expiresAt)
  }

  ghost predicate Waiting(data: LogStore, recorded: map<string, Recorded>, clock: int) {
    forall key :: key in Pending(data) ==> Waits(data, recorded, key, clock)
  }

  /** The rows are recorded logs, each at most once. */
  ghost predicate RowsRecorded(rows: seq<RequestLog>, recorded: map<string, Recorded>) {
    && (forall i :: 0 <= i < |rows| ==>
          CacheKey(rows[i].id) in recorded && recorded[CacheKey(rows[i].id)].log == rows[i])
    && (forall i, j :: 0 <= i < j < |rows| ==> rows[i].id != rows[j].id)
  }

  /** The primary key: no id of the batch is in the table or twice in the batch. */
  predicate Insertable(rows: seq<RequestLog>, logs: seq<RequestLog>) {
    forall i, j :: 0 <= i < j < |rows + logs| && |rows| <= j ==> (rows + logs)[i].id != (rows + logs)[j].id
  }

  ghost predicate DistinctIds(rows: seq<RequestLog>) {
    forall i, j :: 0 <= i < j < |rows| ==> rows[i].id != rows[j].id
  }

  /** A batch is taken exactly when afterwards no two rows share their id. */
  lemma PrimaryKeyTakes(rows: seq<RequestLog>, logs: seq<RequestLog>)
    requires DistinctIds(rows)
    ensures Insertable(rows, logs) <==> DistinctIds(rows + logs)
  {
    var all := rows + logs;
    if Insertable(rows, logs) {
      forall i, j | 0 <= i < j < |all| ensures all[i].id != all[j].id {
        assert j < |rows| ==> all[i] == rows[i] && all[j] == rows[j];
      }
    }
  }

  ghost predicate Placed(recorded: set<string>, pending: set<string>, stored: set<string>, dropped: set<string>) {
    recorded == pending + stored + dropped && pending !! stored && pending !! dropped && stored !! dropped
  }

  /**
   Every recorded log is in exactly one place: pending, stored, or dropped because its body had
   expired; what is stored is what was recorded, and no log is stored twice.
   */
  ghost predicate Conserved(data: LogStore, rows: seq<RequestLog>, recorded: map<string, Recorded>,
                            dropped: set<string>, clock: int) {
    && (PENDING_KEYS in data ==> data[PENDING_KEYS].Set?)
    && Placed(recorded.Keys, Pending(data), Stored(rows), dropped)
    && Waiting(data, recorded, clock)
    && RowsRecorded(rows, recorded)
    && forall key :: key in dropped ==> key in recorded && Lapsed(recorded[key], clock)
  }

  // ---------- One batch ----------

  /** The bodies fetched for a popped batch: those that have not expired, each with its own key. */
  ghost predicate Fetched(recorded: map<string, Recorded>, keys: seq<string>, logs: seq<RequestLog>, live: seq<string>,
                          now: int)
  {
    && |logs| == |live| && NoDuplicates(live)
    && (forall key :: key in live <==> key in keys && key in recorded && !Lapsed(recorded[key], now))
    && (forall i :: 0 <= i < |live| ==>
          live[i] in recorded && logs[i] == recorded[live[i]].log && live[i] == CacheKey(logs[i].id))
  }

  function Elements(keys: seq<string>): set<string> {
    set key | key in keys
  }

  lemma StoredAfter(rows: seq<RequestLog>, logs: seq<RequestLog>, live: seq<string>)
    requires |logs| == |live| && forall i :: 0 <= i < |live| ==> live[i] == CacheKey(logs[i].id)
    ensures Stored(rows + logs) == Stored(rows) + Elements(live)
  {
    var all := rows + logs;
    forall key | key in live ensures key in Stored(all) {
      var i :| 0 <= i < |live| && live[i] == key;
      assert all[|rows| + i] == logs[i];
    }
    forall key | key in Stored(rows) ensures key in Stored(all) {
      var i :| 0 <= i < |rows| && CacheKey(rows[i].id) == key;
      assert all[i] == rows[i];
    }
  }

  lemma RowsAfter(rows: seq<RequestLog>, recorded: map<string, Recorded>, logs: seq<RequestLog>, live: seq<string>)
    requires RowsRecorded(rows, recorded) && |logs| == |live| && NoDuplicates(live)
    requires forall i :: 0 <= i < |live| ==>
               && live[i] == CacheKey(logs[i].id) && live[i] !in Stored(rows)
               && live[i] in recorded && recorded[live[i]].log == logs[i]
    ensures RowsRecorded(rows + logs, recorded)
  {
    var all := rows + logs;
    forall i, j | 0 <= i < j < |all| ensures all[i].id != all[j].id {
      StoredOnce(rows, logs, live, i, j);
    }
  }

  /** The store after a batch was popped and read: reading an expired body deleted it. */
  ghost predicate Taken(data: LogStore, data': LogStore, recorded: map<string, Recorded>, keys: seq<string>, now: int) {
    && (PENDING_KEYS in data' ==> data'[PENDING_KEYS].Set?)
    && Pending(data') == Pending(data) - Elements(keys)
    && (forall key :: key in keys ==> key in Pending(data))
    && forall key :: key in Pending(data) ==>
         Slots.At(data', key) == if key in keys && LapsedKey(recorded, key, now) then None else Slots.At(data, key)
  }

  lemma BatchTaken(data: LogStore, recorded: map<string, Recorded>, clock: int, popped: LogStore, data': LogStore,
                   keys: seq<string>, now: int)
    requires (PENDING_KEYS in data ==> data[PENDING_KEYS].Set?) && Waiting(data, recorded, clock) && clock <= now
    requires forall key :: key in keys ==> key in Pending(data)
    requires popped == Slots.Put(data, PENDING_KEYS, Slots.AfterPop(Slots.At(data, PENDING_KEYS), keys))
    requires forall key :: Slots.At(data', key) ==
               if key in keys && LapsedKey(recorded, key, now) then None else Slots.At(popped, key)
    ensures Taken(data, data', recorded, keys, now)
  {
    forall key | key in Pending(data) ensures key != PENDING_KEYS {
      assert Waits(data, recorded, key, clock);
      PendingKeysIsNoCacheKey(recorded[key].log.id);
    }
    assert Slots.At(data', PENDING_KEYS) == Slots.At(popped, PENDING_KEYS);
  }

  /** A batch whose write commits: live keys become rows, the others were dropped because they expired. */
  lemma BatchStored(data: LogStore, rows: seq<RequestLog>, recorded: map<string, Recorded>, dropped: set<string>,
                    clock: int, data': LogStore, keys: seq<string>, logs: seq<RequestLog>, live: seq<string>, now: int)
    requires Conserved(data, rows, recorded, dropped, clock) && clock <= now
    requires Taken(data, data', recorded, keys, now) && Fetched(recorded, keys, logs, live, now)
    ensures Insertable(rows, logs) && Pending(data' - Elements(live)) == Pending(data')
    ensures Conserved(data' - Elements(live), rows + logs, recorded, dropped + (Elements(keys) - Elements(live)), now)
    ensures Elements(keys) - Elements(live) == LapsedOf(recorded, Elements(keys), now)
  {
    StoredAfter(rows, logs, live);
    forall i | 0 <= i < |live| ensures live[i] !in Stored(rows) {
      assert live[i] in live && live[i] in Pending(data);
    }
    RowsAfter(rows, recorded, logs, live);
    forall key | key in live ensures key != PENDING_KEYS {
      assert Waits(data, recorded, key, clock);
      PendingKeysIsNoCacheKey(recorded[key].log.id);
    }
    forall key | key in Pending(data') ensures Waits(data' - Elements(live), recorded, key, now) {
      assert Waits(data, recorded, key, clock);
    }
  }

  /** A batch without a live body: its keys are gone, and all of them had expired. */
  lemma BatchExpired(data: LogStore, rows: seq<RequestLog>, recorded: map<string, Recorded>, dropped: set<string>,
                     clock: int, data': LogStore, keys: seq<string>, live: seq<string>, now: int)
    requires Conserved(data, rows, recorded, dropped, clock) && clock <= now
    requires Taken(data, data', recorded, keys, now) && Fetched(recorded, keys, [], live, now)
    ensures Conserved(data', rows, recorded, dropped + Elements(keys), now)
    ensures Elements(keys) == LapsedOf(recorded, Pending(data) - Pending(data'), now)
  {
    BatchStored(data, rows, recorded, dropped, clock, data', keys, [], live, now);
    assert Elements(live) == {} && rows + [] == rows && data' - {} == data';
    assert Pending(data) - Pending(data') == Elements(keys);
  }

  lemma StoredOnce(rows: seq<RequestLog>, logs: seq<RequestLog>, live: seq<string>, i: nat, j: nat)
    requires |logs| == |live| && NoDuplicates(live)
    requires forall k :: 0 <= k < |live| ==> live[k] == CacheKey(logs[k].id) && live[k] !in Stored(rows)
    requires forall k, l :: 0 <= k < l < |rows| ==> rows[k].id != rows[l].id
    requires i < j < |rows + logs|
    ensures (rows + logs)[i].id != (rows + logs)[j].id
  {
    if j >= |rows| {
      var key := live[j - |rows|];
      if i < |rows| {
        assert CacheKey(rows[i].id) in Stored(rows);
      } else {
        assert live[i - |rows|] != key;
      }
    }
  }

  /** A batch whose write fails: its keys are put back, so nothing has moved. */
  lemma BatchRestored(data: LogStore, rows: seq<RequestLog>, recorded: map<string, Recorded>, dropped: set<string>,
                      clock: int, data': LogStore, restored: LogStore, keys: seq<string>, now: int)
    requires Conserved(data, rows, recorded, dropped, clock) && clock <= now && Taken(data, data', recorded, keys, now)
    requires restored == data'[PENDING_KEYS := Slots.Set(Pending(data') + Elements(keys))]
    ensures Conserved(restored, rows, recorded, dropped, now) && Pending(restored) == Pending(data)
  {
    assert Pending(restored) == Pending(data);
    forall key | key in Pending(restored) ensures Waits(restored, recorded, key, now) {
      assert Waits(data, recorded, key, clock);
      PendingKeysIsNoCacheKey(recorded[key].log.id);
    }
  }

  // ---------- Recording ----------

  lemma RecordedAtOnce(data: LogStore, rows: seq<RequestLog>, recorded: map<string, Recorded>, dropped: set<string>,
                       clock: int, log: RequestLog, now: int)
    requires Conserved(data, rows, recorded, dropped, clock) && clock <= now && CacheKey(log.id) !in recorded
    ensures Insertable(rows, [log])
    ensures Conserved(data, rows + [log], recorded[CacheKey(log.id) := Recorded(log, 0)], dropped, now)
  {
    StoredAfter(rows, [log], [CacheKey(log.id)]);
    var recorded' := recorded[CacheKey(log.id) := Recorded(log, 0)];
    forall key | key in Pending(data) ensures Waits(data, recorded', key, now) {
      assert Waits(data, recorded, key, clock);
    }
    RowsAfter(rows, recorded', [log], [CacheKey(log.id)]);
  }

  lemma RecordedLater(data: LogStore, rows: seq<RequestLog>, recorded: map<string, Recorded>, dropped: set<string>,
                      clock: int, data': LogStore, log: RequestLog, expiresAt: int, now: int)
    requires Conserved(data, rows, recorded, dropped, clock) && clock <= now && CacheKey(log.id) !in recorded
    requires data' == data[CacheKey(log.id) := Slots.Item(log, expiresAt)]
                          [PENDING_KEYS := Slots.Set(Pending(data) + {CacheKey(log.id)})]
    ensures Conserved(data', rows, recorded[CacheKey(log.id) := Recorded(log, expiresAt)], dropped, now)
  {
    var recorded' := recorded[CacheKey(log.id) := Recorded(log, expiresAt)];
    PendingKeysIsNoCacheKey(log.id);
    forall key | key in Pending(data') ensures Waits(data', recorded', key, now) {
      if key != CacheKey(log.id) {
        assert Waits(data, recorded, key, clock);
        PendingKeysIsNoCacheKey(recorded[key].log.id);
      }
    }
  }

  lemma TimePasses(data: LogStore, rows: seq<RequestLog>, recorded: map<string, Recorded>, dropped: set<string>,
                   clock: int, now: int)
    requires Conserved(data, rows, recorded, dropped, clock) && clock <= now
    ensures Conserved(data, rows, recorded, dropped, now)
  {
    forall key | key in Pending(data) ensures Waits(data, recorded, key, now) {
      assert Waits(data, recorded, key, clock);
    }
  }

  /** What the store answers when asked for the body of a waiting log. */
  lemma BodyRead(data: LogStore, recorded: map<string, Recorded>, key: string, clock: int, now: int)
    requires Waits(data, recorded, key, clock) && clock <= now
    ensures Lapsed(recorded[key], now) ==>
              Slots.GetReply(Slots.At(data, key), now).Err? && Slots.Refreshed(Slots.At(data, key), now) == None
    ensures !Lapsed(recorded[key], now) ==>
              && Slots.GetReply(Slots.At(data, key), now) == Ok(recorded[key].log)
              && Slots.Refreshed(Slots.At(data, key), now) == Slots.At(data, key)
  {
  }

  // ---------- The service ----------

  class RequestLogService {
    const store: MemoryStore<RequestLog>
    var rows: seq<RequestLog>  // request_logs
    var hourly: Hourly  // group_hourly_stats
    var keyRows: map<nat, KeyRow>  // the request counts of api_keys
    ghost const startRows: map<nat, KeyRow>  // the same, at the start
    ghost var recorded: map<string, Recorded>
    ghost var dropped: set<string>
    ghost var clock: int

    /**
     Nothing recorded is lost or stored twice, the hourly table agrees with the rows, and every key has
     been counted up from its starting value by the rows that report a success with its text.
     */
    ghost predicate Valid()
      reads this, store
    {
      && Conserved(store.data, rows, recorded, dropped, clock)
      && Agrees(hourly, rows) && WholeHours(hourly) && CountedFrom(startRows, keyRows, rows)
    }

    constructor (store: MemoryStore<RequestLog>, keyRows: map<nat, KeyRow>)
      requires PENDING_KEYS !in store.data
      ensures Valid() && this.store == store && this.keyRows == startRows == keyRows
      ensures recorded == map[] && rows == [] && hourly == map[]
    {
      this.store, this.keyRows, startRows, rows, hourly := store, keyRows, keyRows, [], map[];
      recorded, dropped, clock := map[], {}, 0;
    }

    /** One transaction: all of it takes effect, or nothing does.  A repeated id makes it fail. */
    method WriteLogsToDB(logs: seq<RequestLog>, commits: bool) returns (ok: bool)
      modifies this`rows, this`hourly, this`keyRows
      ensures ok <==> logs == [] || (commits && Insertable(old(rows), logs))
      ensures !ok ==> rows == old(rows) && hourly == old(hourly) && keyRows == old(keyRows)
      ensures ok ==>
                && rows == old(rows) + logs
                && Upserted(old(hourly), hourly, logs)
                && CountedFrom(old(keyRows), keyRows, logs)
      ensures old(WholeHours(hourly)) ==> WholeHours(hourly)
    {
      if |logs| == 0 {
        return true;
      }
      if !commits || !Insertable(rows, logs) {
        return false;
      }
      rows := rows + logs;
      var keyStats := KeyStats(logs);
      keyRows := map id | id in keyRows ::
        keyRows[id].(requestCount := keyRows[id].requestCount +
                       if keyRows[id].keyValue in keyStats then keyStats[keyRows[id].keyValue] else 0);
      var stats := BatchStats(logs);
      hourly := UpsertAll(hourly, stats);
      return true;
    }

    /** Records a log under a new id: at once in synchronous mode (interval 0), else into the buffer. */
    method Record(log: RequestLog, id: string, interval: nat, now: int, commits: bool) returns (ok: bool)
      requires Valid() && clock <= now && CacheKey(id) !in recorded
      modifies this, store
      ensures Valid() && clock == now && dropped == old(dropped)
      ensures ok <==> interval > 0 || commits
      ensures recorded.Keys == if ok then old(recorded).Keys + {CacheKey(id)} else old(recorded).Keys
      ensures ok ==> recorded[CacheKey(id)].log == log.(id := id, timestamp := now)
      ensures rows == if ok && interval == 0 then old(rows) + [log.(id := id, timestamp := now)] else old(rows)
      ensures interval > 0 ==>
                Slots.At(store.data, "request_log:" + id) ==
                Some(Slots.Item(log.(id := id, timestamp := now), now + interval * 300_000_000_000))
      ensures Pending(store.data) ==
              if interval > 0 then old(Pending(store.data)) + {CacheKey(id)} else old(Pending(store.data))
    {
      var entry := log.(id := id, timestamp := now);
      if interval == 0 {
        ok := RecordNow(entry, now, commits);
      } else {
        RecordLater(entry, interval, now);
        assert Waits(store.data, recorded, CacheKey(id), clock);
        ok := true;
      }
    }

    method RecordNow(log: RequestLog, now: int, commits: bool) returns (ok: bool)
      requires Valid() && clock <= now && CacheKey(log.id) !in recorded
      modifies this
      ensures Valid() && clock == now && dropped == old(dropped) && (ok <==> commits)
      ensures recorded == if ok then old(recorded)[CacheKey(log.id) := Recorded(log, 0)] else old(recorded)
      ensures rows == if ok then old(rows) + [log] else old(rows)
    {
      RecordedAtOnce(store.data, rows, recorded, dropped, clock, log, now);
      TimePasses(store.data, rows, recorded, dropped, clock, now);
      ok := WriteLogsToDB([log], commits);
      clock := now;
      if ok {
        UpsertKeepsAgreement(old(hourly), hourly, old(rows), [log]);
        CountsAddUp(startRows, old(keyRows), keyRows, old(rows), [log]);
        recorded := recorded[CacheKey(log.id) := Recorded(log, 0)];
      }
    }

    method RecordLater(log: RequestLog, interval: nat, now: int)
      requires Valid() && clock <= now && CacheKey(log.id) !in recorded && interval > 0
      modifies this`recorded, this`clock, store
      ensures Valid() && clock == now
      ensures recorded == old(recorded)[CacheKey(log.id) := Recorded(log, now + interval * 5 * MINUTE)]
      ensures Pending(store.data) == old(Pending(store.data)) + {CacheKey(log.id)}
    {
      var ttl := interval * 5 * MINUTE;
      PendingKeysIsNoCacheKey(log.id);
      store.Set(CacheKey(log.id), log, ttl, now);
      var r := store.SAdd(PENDING_KEYS, [CacheKey(log.id)]);
      assert (set m | m in [CacheKey(log.id)]) == {CacheKey(log.id)};
      RecordedLater(old(store.data), rows, recorded, dropped, clock, store.data, log, now + ttl, now);
      recorded := recorded[CacheKey(log.id) := Recorded(log, now + ttl)];
      clock := now;
    }

    /** Reads the bodies of a popped batch; reading an expired one deletes it. */
    method Fetch(keys: seq<string>, now: int) returns (logs: seq<RequestLog>, live: seq<string>)
      requires NoDuplicates(keys) && clock <= now
      requires forall key :: key in keys ==> Waits(store.data, recorded, key, clock)
      modifies store
      ensures Fetched(recorded, keys, logs, live, now)
      ensures forall key :: Slots.At(store.data, key) ==
                if key in keys && LapsedKey(recorded, key, now) then None else old(Slots.At(store.data, key))
    {
      logs, live := [], [];
      for i := 0 to |keys|
        invariant Fetched(recorded, keys[..i], logs, live, now)
        invariant forall key :: Slots.At(store.data, key) ==
                    if key in keys[..i] && LapsedKey(recorded, key, now) then None else old(Slots.At(store.data, key))
      {
        var key := keys[i];
        assert keys[..i + 1] == keys[..i] + [key] && key !in keys[..i];
        assert old(Waits(store.data, recorded, key, clock));
        BodyRead(store.data, recorded, key, clock, now);
        var body := store.Get(key, now);
        if body.Ok? {
          logs, live := logs + [body.value], live + [key];
        }
      }
      assert keys[..|keys|] == keys;
    }

    /** Pops up to 200 pending keys and reads their bodies. */
    method Take(now: int) returns (keys: seq<string>, logs: seq<RequestLog>, live: seq<string>)
      requires Valid() && clock <= now
      modifies store
      ensures Taken(old(store.data), store.data, recorded, keys, now) && Fetched(recorded, keys, logs, live, now)
      ensures |keys| <= 200 && (keys == [] ==> old(Pending(store.data)) == {})
      ensures |keys| > 0 ==> Pending(store.data) < old(Pending(store.data))
    {
      var popped := store.SPopN(PENDING_KEYS, BATCH_SIZE);
      keys := popped.value;
      ghost var between := store.data;
      forall key | key in keys ensures Waits(store.data, recorded, key, clock) {
        assert old(Waits(store.data, recorded, key, clock));
        PendingKeysIsNoCacheKey(recorded[key].log.id);
      }
      logs, live := Fetch(keys, now);
      assert |keys| > 0 ==> keys[0] in old(Pending(store.data)) && keys[0] in Elements(keys);
      BatchTaken(old(store.data), recorded, clock, between, store.data, keys, now);
    }

    /** One round of a flush; false when it has to stop: nothing pending, or the batch was put back. */
    method FlushBatch(now: int, commits: bool) returns (more: bool)
      requires Valid() && clock <= now
      modifies this, store
      ensures Valid() && clock == now && recorded == old(recorded)
      ensures more ==> Pending(store.data) < old(Pending(store.data)) && old(rows) <= rows
      ensures !more ==> Pending(store.data) == old(Pending(store.data)) && rows == old(rows)
      ensures !more && commits ==> Pending(store.data) == {}
      ensures dropped == old(dropped) + LapsedOf(recorded, old(Pending(store.data)) - Pending(store.data), now)
    {
      ghost var data := store.data;
      TimePasses(data, rows, recorded, dropped, clock, now);
      var keys, logs, live := Take(now);
      assert |live| > 0 ==> live[0] in live;
      if |keys| == 0 {
        BatchExpired(data, rows, recorded, dropped, clock, store.data, keys, live, now);
        clock := now;
        return false;
      }
      if |logs| == 0 {
        BatchExpired(data, rows, recorded, dropped, clock, store.data, keys, live, now);
        dropped, clock := dropped + Elements(keys), now;
        return true;
      }
      assert Pending(data) - Pending(store.data) == Elements(keys);
      more := WriteBatch(data, keys, logs, live, now, commits);
    }

    // The end of a round: the batch taken out of `data` is written, or put back when the write fails.
    method WriteBatch(ghost data: LogStore, keys: seq<string>, logs: seq<RequestLog>, live: seq<string>, now: int,
                      commits: bool)
      returns (ok: bool)
      requires Conserved(data, rows, recorded, dropped, clock) && clock <= now && |logs| > 0
      requires Agrees(hourly, rows) && WholeHours(hourly) && CountedFrom(startRows, keyRows, rows)
      requires Taken(data, store.data, recorded, keys, now) && Fetched(recorded, keys, logs, live, now)
      modifies this, store
      ensures Valid() && clock == now && recorded == old(recorded) && (ok <==> commits)
      ensures ok ==> Pending(store.data) == Pending(data) - Elements(keys) && rows == old(rows) + logs
      ensures !ok ==> Pending(store.data) == Pending(data) && rows == old(rows)
      ensures dropped == old(dropped) + if ok then LapsedOf(recorded, Elements(keys), now) else {}
    {
      BatchStored(data, rows, recorded, dropped, clock, store.data, keys, logs, live, now);
      ok := WriteLogsToDB(logs, commits);
      if ok {
        UpsertKeepsAgreement(old(hourly), hourly, old(rows), logs);
        CountsAddUp(startRows, old(keyRows), keyRows, old(rows), logs);
        store.Del(live);
        dropped, clock := dropped + (Elements(keys) - Elements(live)), now;
      } else {
        PutBack(data, keys, now);
      }
    }

    // The keys of a batch that could not be written are pending again.
    method PutBack(ghost data: LogStore, keys: seq<string>, now: int)
      requires Conserved(data, rows, recorded, dropped, clock) && clock <= now
      requires Agrees(hourly, rows) && WholeHours(hourly) && CountedFrom(startRows, keyRows, rows)
      requires Taken(data, store.data, recorded, keys, now)
      modifies this`clock, store
      ensures Valid() && clock == now && Pending(store.data) == Pending(data)
    {
      ghost var taken := store.data;
      var r := store.SAdd(PENDING_KEYS, keys);
      BatchRestored(data, rows, recorded, dropped, clock, taken, store.data, keys, now);
      clock := now;
    }

    /** Writes everything pending, batch by batch, until the set is empty or a batch fails. */
    method Flush(interval: nat, now: int, commits: nat -> bool)
      requires Valid() && clock <= now
      modifies this, store
      ensures Valid() && recorded == old(recorded)
      ensures interval == 0 ==> rows == old(rows) && dropped == old(dropped) && store.data == old(store.data)
      ensures old(rows) <= rows && Pending(store.data) <= old(Pending(store.data))
      ensures interval > 0 && (forall n :: commits(n)) ==> Pending(store.data) == {}
      ensures dropped == old(dropped) + LapsedOf(recorded, old(Pending(store.data)) - Pending(store.data), now)
    {
      if interval == 0 {
        return;
      }
      var more, n := true, 0;
      while more
        invariant Valid() && clock <= now && recorded == old(recorded)
        invariant old(rows) <= rows && Pending(store.data) <= old(Pending(store.data))
        invariant !more && (forall n :: commits(n)) ==> Pending(store.data) == {}
        invariant dropped == old(dropped) + LapsedOf(recorded, old(Pending(store.data)) - Pending(store.data), now)
        decreases more, Pending(store.data)
      {
        ghost var pending := Pending(store.data);
        more := FlushBatch(now, commits(n));
        assert old(Pending(store.data)) - Pending(store.data) ==
               (old(Pending(store.data)) - pending) + (pending - Pending(store.data));
        n := n + 1;
      }
    }
  }
}
