/** Request logs as rows, and the counts that are kept about them. */
module HourlyStats {

  datatype RequestLog = RequestLog(id: string, timestamp: int, groupId: nat, keyValue: string, isSuccess: bool)

  /** A timestamp in nanoseconds rounded down to the hour. */
  function Truncated(timestamp: int): int {
    timestamp - timestamp % 3_600_000_000_000
  }

  /** The start of the hour that the timestamp lies in. */
  lemma TruncatedIsStartOfHour(timestamp: int)
    ensures Truncated(timestamp) <= timestamp < Truncated(timestamp) + 3_600_000_000_000
    ensures Truncated(timestamp) % 3_600_000_000_000 == 0
    ensures forall hour: int :: hour % 3_600_000_000_000 == 0 && hour <= timestamp < hour + 3_600_000_000_000 ==>
              hour == Truncated(timestamp)
  {
    forall hour: int | hour % 3_600_000_000_000 == 0 && hour <= timestamp < hour + 3_600_000_000_000
      ensures hour == Truncated(timestamp)
    {
      var h, t := hour / 3_600_000_000_000, timestamp / 3_600_000_000_000;
      assert hour == h * 3_600_000_000_000 && Truncated(timestamp) == t * 3_600_000_000_000;
    }
  }

  datatype Counts = Counts(success: nat, failure: nat)

  type Hourly = map<(int, nat), Counts>

  predicate Falls(log: RequestLog, hour: int, gid: nat, ok: bool) {
    Truncated(log.timestamp) == hour && log.groupId == gid && log.isSuccess == ok
  }

  /** The number of rows of an hour and a group with the given outcome. */
  function CountOf(rows: seq<RequestLog>, hour: int, gid: nat, ok: bool): nat {
    if rows == [] then 0
    else CountOf(rows[..|rows| - 1], hour, gid, ok) + if Falls(rows[|rows| - 1], hour, gid, ok) then 1 else 0
  }

  /** The count the table shows; no line for an hour and group means zero. */
  function Line(hourly: Hourly, hour: int, gid: nat, ok: bool): nat {
    if (hour, gid) !in hourly then 0
    else if ok then hourly[(hour, gid)].success else hourly[(hour, gid)].failure
  }

  lemma {:induction false} CountAppend(a: seq<RequestLog>, b: seq<RequestLog>, hour: int, gid: nat, ok: bool)
    ensures CountOf(a + b, hour, gid, ok) == CountOf(a, hour, gid, ok) + CountOf(b, hour, gid, ok)
  {
    if b == [] {
      assert a + b == a;
    } else {
      var before, last := b[..|b| - 1], b[|b| - 1];
      assert (a + b)[..|a + b| - 1] == a + before && (a + b)[|a + b| - 1] == last;
      CountAppend(a, before, hour, gid, ok);
    }
  }

  /** The hourly table says of every hour and group what the raw rows say. */
  ghost predicate Agrees(hourly: Hourly, rows: seq<RequestLog>) {
    forall hour: int, gid: nat, ok: bool :: Line(hourly, hour, gid, ok) == CountOf(rows, hour, gid, ok)
  }

  /** The rows of one hour and group with the given outcome: those with hour <= timestamp < hour + 1h. */
  function RowsOfHour(rows: seq<RequestLog>, hour: int, gid: nat, ok: bool): set<nat> {
    set i: nat | i < |rows| && hour <= rows[i].timestamp < hour + 3_600_000_000_000
                 && rows[i].groupId == gid && rows[i].isSuccess == ok
  }

  lemma {:induction false} CountIsCardinality(rows: seq<RequestLog>, hour: int, gid: nat, ok: bool)
    ensures CountOf(rows, hour, gid, ok) ==
            if hour % 3_600_000_000_000 == 0 then |RowsOfHour(rows, hour, gid, ok)| else 0
  {
    if rows != [] {
      var n := |rows| - 1;
      CountIsCardinality(rows[..n], hour, gid, ok);
      TruncatedIsStartOfHour(rows[n].timestamp);
      var before, after := RowsOfHour(rows[..n], hour, gid, ok), RowsOfHour(rows, hour, gid, ok);
      assert n !in before;
      if hour % 3_600_000_000_000 == 0 {
        assert after == if Falls(rows[n], hour, gid, ok) then before + {n} else before;
      }
    }
  }

  /** No line of the table stands for anything but a whole hour. */
  ghost predicate WholeHours(hourly: Hourly) {
    forall key :: key in hourly ==> key.0 % 3_600_000_000_000 == 0
  }

  /** Each line of a table that agrees with the rows counts the rows of its hour, its group and each outcome. */
  lemma LinesCountTheirHour(hourly: Hourly, rows: seq<RequestLog>, hour: int, gid: nat)
    requires Agrees(hourly, rows) && WholeHours(hourly)
    ensures (hour, gid) in hourly ==>
              && hour % 3_600_000_000_000 == 0
              && hourly[(hour, gid)].success == |RowsOfHour(rows, hour, gid, true)|
              && hourly[(hour, gid)].failure == |RowsOfHour(rows, hour, gid, false)|
    ensures forall i: nat :: i < |rows| && rows[i].groupId == gid ==>
              exists h: int :: h <= rows[i].timestamp < h + 3_600_000_000_000 && (h, gid) in hourly
  {
    CountIsCardinality(rows, hour, gid, true);
    CountIsCardinality(rows, hour, gid, false);
    assert Line(hourly, hour, gid, true) == CountOf(rows, hour, gid, true);
    assert Line(hourly, hour, gid, false) == CountOf(rows, hour, gid, false);
    forall i: nat | i < |rows| && rows[i].groupId == gid
      ensures exists h: int :: h <= rows[i].timestamp < h + 3_600_000_000_000 && (h, gid) in hourly
    {
      RowHasLine(hourly, rows, i);
    }
  }

  lemma RowHasLine(hourly: Hourly, rows: seq<RequestLog>, i: nat)
    requires Agrees(hourly, rows) && i < |rows|
    ensures var h := Truncated(rows[i].timestamp);
            h <= rows[i].timestamp < h + 3_600_000_000_000 && (h, rows[i].groupId) in hourly
  {
    var h, gid, ok := Truncated(rows[i].timestamp), rows[i].groupId, rows[i].isSuccess;
    TruncatedIsStartOfHour(rows[i].timestamp);
    CountIsCardinality(rows, h, gid, ok);
    assert i in RowsOfHour(rows, h, gid, ok);
    assert Line(hourly, h, gid, ok) == CountOf(rows, h, gid, ok) > 0;
  }

  /** Adding the counts of one batch to the table. */
  ghost predicate Upserted(before: Hourly, after: Hourly, batch: seq<RequestLog>) {
    forall hour: int, gid: nat, ok: bool ::
      Line(after, hour, gid, ok) == Line(before, hour, gid, ok) + CountOf(batch, hour, gid, ok)
  }

  lemma UpsertKeepsAgreement(before: Hourly, after: Hourly, rows: seq<RequestLog>, batch: seq<RequestLog>)
    requires Agrees(before, rows) && Upserted(before, after, batch)
    ensures Agrees(after, rows + batch)
  {
    forall hour: int, gid: nat, ok: bool ensures Line(after, hour, gid, ok) == CountOf(rows + batch, hour, gid, ok) {
      CountAppend(rows, batch, hour, gid, ok);
    }
  }

  function Concat(batches: seq<seq<RequestLog>>): seq<RequestLog> {
    if batches == [] then [] else Concat(batches[..|batches| - 1]) + batches[|batches| - 1]
  }

  /** However the logs are split into batches, the table ends up counting all of them. */
  lemma {:induction false} BatchingDoesNotMatter(tables: seq<Hourly>, batches: seq<seq<RequestLog>>)
    requires |tables| == |batches| + 1 && tables[0] == map[]
    requires forall i :: 0 <= i < |batches| ==> Upserted(tables[i], tables[i + 1], batches[i])
    ensures Agrees(tables[|batches|], Concat(batches))
  {
    if batches != [] {
      var n := |batches| - 1;
      BatchingDoesNotMatter(tables[..n + 1], batches[..n]);
      UpsertKeepsAgreement(tables[n], tables[n + 1], Concat(batches[..n]), batches[n]);
    }
  }

  // ---------- Request counts of keys ----------

  datatype KeyRow = KeyRow(groupId: nat, keyValue: string, requestCount: int)

  predicate CountsFor(log: RequestLog, keyValue: string) {
    log.isSuccess && log.keyValue != "" && log.keyValue == keyValue
  }

  function SuccessesOf(rows: seq<RequestLog>, keyValue: string): nat {
    if rows == [] then 0
    else SuccessesOf(rows[..|rows| - 1], keyValue) + if CountsFor(rows[|rows| - 1], keyValue) then 1 else 0
  }

  function SuccessesInGroup(rows: seq<RequestLog>, keyValue: string, gid: nat): nat {
    if rows == [] then 0
    else SuccessesInGroup(rows[..|rows| - 1], keyValue, gid)
         + if CountsFor(rows[|rows| - 1], keyValue) && rows[|rows| - 1].groupId == gid then 1 else 0
  }

  /**
   A key's request count grows by the successes of its text in any group: that is its own group's
   share exactly when no other group had a success with the same text.
   */
  lemma {:induction false} SharedKeyTextIsCountedForEveryGroup(rows: seq<RequestLog>, keyValue: string, gid: nat)
    ensures SuccessesInGroup(rows, keyValue, gid) <= SuccessesOf(rows, keyValue)
    ensures SuccessesOf(rows, keyValue) == SuccessesInGroup(rows, keyValue, gid) <==>
            forall i :: 0 <= i < |rows| && CountsFor(rows[i], keyValue) ==> rows[i].groupId == gid
  {
    if rows != [] {
      var n := |rows| - 1;
      SharedKeyTextIsCountedForEveryGroup(rows[..n], keyValue, gid);
      assert forall i :: 0 <= i < n ==> rows[..n][i] == rows[i];
    }
  }

  /** The successes with a key text, in whatever group. */
  function SuccessRows(rows: seq<RequestLog>, keyValue: string): set<nat> {
    set i: nat | i < |rows| && rows[i].isSuccess && rows[i].keyValue == keyValue
  }

  /** A key's request count is raised by the number of successes with its text; an empty text counts for no key. */
  lemma {:induction false} SuccessesAreRows(rows: seq<RequestLog>, keyValue: string)
    ensures SuccessesOf(rows, keyValue) == if keyValue == "" then 0 else |SuccessRows(rows, keyValue)|
  {
    if rows != [] {
      var n := |rows| - 1;
      SuccessesAreRows(rows[..n], keyValue);
      if keyValue != "" {
        OneMoreSuccess(rows, keyValue);
      }
    }
  }

  lemma OneMoreSuccess(rows: seq<RequestLog>, keyValue: string)
    requires rows != [] && keyValue != ""
    ensures var n := |rows| - 1;
            |SuccessRows(rows, keyValue)| ==
            |SuccessRows(rows[..n], keyValue)| + if CountsFor(rows[n], keyValue) then 1 else 0
  {
    var n := |rows| - 1;
    var before, after := SuccessRows(rows[..n], keyValue), SuccessRows(rows, keyValue);
    assert n !in before;
    assert after == if CountsFor(rows[n], keyValue) then before + {n} else before;
  }

  /** One success with the text "k" in group 1 and one in group 2: each group's key is counted up by 2. */
  lemma SharedKeyTextExample()
    ensures var one := RequestLog("a", 0, 1, "k", true); var two := RequestLog("b", 0, 2, "k", true);
            SuccessesOf([one, two], "k") == 2 && SuccessesInGroup([one, two], "k", 1) == 1
  {
    var one, two := RequestLog("a", 0, 1, "k", true), RequestLog("b", 0, 2, "k", true);
    assert [one, two][..1] == [one] && [one][..0] == [];
    assert SuccessesOf([one], "k") == 1 && SuccessesInGroup([one], "k", 1) == 1;
  }

  /** Each key of `after` is the key of `before` with its count raised by the successes of its text. */
  predicate CountedFrom(before: map<nat, KeyRow>, after: map<nat, KeyRow>, logs: seq<RequestLog>) {
    && after.Keys == before.Keys
    && forall id :: id in before ==>
         after[id] ==
         before[id].(requestCount := before[id].requestCount + SuccessesOf(logs, before[id].keyValue))
  }

  lemma {:induction false} SuccessesAppend(rows: seq<RequestLog>, logs: seq<RequestLog>, keyValue: string)
    ensures SuccessesOf(rows + logs, keyValue) == SuccessesOf(rows, keyValue) + SuccessesOf(logs, keyValue)
  {
    if logs == [] {
      assert rows + logs == rows;
    } else {
      assert (rows + logs)[..|rows + logs| - 1] == rows + logs[..|logs| - 1];
      SuccessesAppend(rows, logs[..|logs| - 1], keyValue);
    }
  }

  /** Counts that are right for the rows stay right when a batch is counted on top of them. */
  lemma CountsAddUp(start: map<nat, KeyRow>, before: map<nat, KeyRow>, after: map<nat, KeyRow>,
                    rows: seq<RequestLog>, logs: seq<RequestLog>)
    requires CountedFrom(start, before, rows) && CountedFrom(before, after, logs)
    ensures CountedFrom(start, after, rows + logs)
  {
    forall id | id in start
      ensures after[id] ==
              start[id].(requestCount := start[id].requestCount + SuccessesOf(rows + logs, start[id].keyValue))
    {
      SuccessesAppend(rows, logs, start[id].keyValue);
    }
  }

  // ---------- The loops over one batch ----------

  /** Counts the successes of each key text in the batch. */
  method KeyStats(logs: seq<RequestLog>) returns (stats: map<string, nat>)
    ensures forall v :: (if v in stats then stats[v] else 0) == SuccessesOf(logs, v)
  {
    stats := map[];
    for i := 0 to |logs|
      invariant forall v :: (if v in stats then stats[v] else 0) == SuccessesOf(logs[..i], v)
    {
      var log := logs[i];
      if log.isSuccess && log.keyValue != "" {
        stats := stats[log.keyValue := (if log.keyValue in stats then stats[log.keyValue] else 0) + 1];
      }
      assert logs[..i + 1][..i] == logs[..i];
    }
    assert logs[..|logs|] == logs;
  }

  /** Counts successes and failures of each hour and group in the batch. */
  method BatchStats(logs: seq<RequestLog>) returns (stats: Hourly)
    ensures Agrees(stats, logs) && WholeHours(stats)
  {
    stats := map[];
    for i := 0 to |logs|
      invariant Agrees(stats, logs[..i]) && WholeHours(stats)
    {
      var log := logs[i];
      TruncatedIsStartOfHour(log.timestamp);
      var hour, gid := Truncated(log.timestamp), log.groupId;
      var success, failure := Line(stats, hour, gid, true), Line(stats, hour, gid, false);
      if log.isSuccess {
        success := success + 1;
      } else {
        failure := failure + 1;
      }
      stats := stats[(hour, gid) := Counts(success, failure)];
      assert logs[..i + 1][..i] == logs[..i];
    }
    assert logs[..|logs|] == logs;
  }

  /** Inserts or increments one line of the table for each line of the batch, in any order. */
  method UpsertAll(hourly: Hourly, stats: Hourly) returns (after: Hourly)
    ensures forall hour: int, gid: nat, ok: bool ::
              Line(after, hour, gid, ok) == Line(hourly, hour, gid, ok) + Line(stats, hour, gid, ok)
    ensures after.Keys == hourly.Keys + stats.Keys
  {
    after := hourly;
    var rest := stats.Keys;
    while rest != {}
      invariant rest <= stats.Keys && after.Keys == hourly.Keys + (stats.Keys - rest)
      invariant forall hour: int, gid: nat, ok: bool ::
                  Line(after, hour, gid, ok) ==
                  Line(hourly, hour, gid, ok) + if (hour, gid) in rest then 0 else Line(stats, hour, gid, ok)
    {
      var key :| key in rest;
      var success, failure := Line(after, key.0, key.1, true), Line(after, key.0, key.1, false);
      after := after[key := Counts(success + stats[key].success, failure + stats[key].failure)];
      rest := rest - {key};
    }
  }
}
