/** Whole runs of the key pool: any sequence of handlers, in any interleaving. */
module PoolRuns {
  import opened Wrappers
  import opened Lists
  import opened Pools
  import opened PoolBatches

  /**
   One handler call; `found` and `order` are the ids a query returned or the database assigned.  A request
   answered with key `id` is an event too, although the pool is not told of it.  Recovery is an event for
   each key, some time after the query that found it.
   */
  datatype Event =
    | SelectKey(gid: nat)
    | Answered(id: nat)
    | Success(id: nat, gid: nat)
    | Failure(id: nat, gid: nat, threshold: int)
    | RateLimit(id: nat, gid: nat, now: int, resetAt: Option<int>)
    | Add(rows: Table, order: seq<nat>)
    | Remove(found: seq<nat>)
    | Restore(found: seq<nat>)
    | Recover(id: nat, gid: nat)
    | DeleteGroup(gid: nat, found: seq<nat>)

  /** A query's result names each matching row once. */
  ghost predicate Enabled(p: Pool, e: Event) {
    match e
    case SelectKey(_) => true
    case Answered(_) => true
    case Success(id, gid) => id in p.db ==> p.db[id].groupId == gid
    case Failure(id, gid, _) => id in p.db ==> p.db[id].groupId == gid
    case RateLimit(id, gid, _, _) => id in p.db ==> p.db[id].groupId == gid
    case Add(rows, order) => FreshIds(p, rows, order)
    case Remove(found) => NoDuplicates(found) && forall id :: id in found ==> id in p.db
    case Restore(found) =>
      NoDuplicates(found) && forall id :: id in found ==> id in p.db && p.db[id].status == Invalid
    case Recover(id, gid) => id in p.db && p.db[id].groupId == gid && p.db[id].status != Active
    case DeleteGroup(gid, found) =>
      NoDuplicates(found) && forall id :: id in found <==> id in p.db && p.db[id].groupId == gid
  }

  ghost function Step(p: Pool, e: Event): Pool
    requires Enabled(p, e)
  {
    match e
    case SelectKey(gid) => Select(p, gid)
    case Answered(_) => p
    case Success(id, gid) => HandleSuccess(p, id, gid)
    case Failure(id, gid, threshold) => HandleFailure(p, id, gid, threshold)
    case RateLimit(id, gid, now, resetAt) => HandleRateLimit(p, id, gid, now, resetAt)
    case Add(rows, order) => AddKeys(p, rows, order)
    case Remove(found) => RemoveRows(p, found)
    case Restore(found) => RestoreRows(p, found)
    case Recover(id, gid) => RecoverOne(p, id, gid)
    case DeleteGroup(gid, found) => DeleteGroupKeys(p, gid, found)
  }

  ghost predicate IsRun(ps: seq<Pool>, es: seq<Event>) {
    && |ps| == |es| + 1
    && forall i :: 0 <= i < |es| ==> Enabled(ps[i], es[i]) && ps[i + 1] == Step(ps[i], es[i])
  }

  // ---------- Agreement ----------

  lemma StepKeepsInv(p: Pool, e: Event)
    requires Inv(p) && Enabled(p, e)
    ensures Inv(Step(p, e))
  {
    match e
    case SelectKey(gid) => SelectKeepsInv(p, gid);
    case Answered(_) =>
    case Success(id, gid) => SuccessKeepsInv(p, id, gid);
    case Failure(id, gid, threshold) => FailureKeepsInv(p, id, gid, threshold);
    case RateLimit(id, gid, now, resetAt) => RateLimitKeepsInv(p, id, gid, now, resetAt);
    case Add(rows, order) => AddKeysKeepsInv(p, rows, order);
    case Remove(found) => RemoveKeepsInv(p, found);
    case Restore(found) => RestoreKeepsInv(p, found);
    case Recover(id, gid) => RecoverOneKeepsInv(p, id, gid);
    case DeleteGroup(gid, found) =>
      if found == [] {
        assert DeleteGroupKeys(p, gid, found).db == p.db;
      } else {
        DeletingGroupKeys(p, gid, found);
      }
  }

  /** Every pool reached from an agreeing one agrees: table, hashes and lists stay in step. */
  lemma {:induction false} RunsKeepInv(ps: seq<Pool>, es: seq<Event>, i: nat)
    requires IsRun(ps, es) && i <= |es| && Inv(ps[0])
    ensures Inv(ps[i])
  {
    if i > 0 {
      RunsKeepInv(ps, es, i - 1);
      StepKeepsInv(ps[i - 1], es[i - 1]);
    }
  }

  /** After loading any table into an empty store, whatever handlers run, table, hashes and lists agree. */
  lemma EveryReachablePoolAgrees(db: Table, order: seq<nat>, ps: seq<Pool>, es: seq<Event>, i: nat)
    requires NoDuplicates(order) && forall id :: id in order <==> id in db
    requires IsRun(ps, es) && i <= |es| && ps[0] == LoadKeys(Pool(db, map[], map[]), order)
    ensures Inv(ps[i])
  {
    LoadKeysEstablishesInv(db, order);
    RunsKeepInv(ps, es, i);
  }

  // ---------- The unique index ----------

  /** A step gives no key another text or group, and adds only rows the unique index takes. */
  lemma KeyAfterStep(p: Pool, e: Event, id: nat)
    requires Inv(p) && Enabled(p, e) && id in Step(p, e).db
    ensures var row := Step(p, e).db[id];
            || (id in p.db && row.keyValue == p.db[id].keyValue && row.groupId == p.db[id].groupId)
            || (e.Add? && Insertable(p.db, e.rows) && id in e.rows && row == e.rows[id])
  {
    match e
    case SelectKey(_) =>
    case Answered(_) =>
    case Success(k, gid) => SuccessKeepsInv(p, k, gid);
    case Failure(k, gid, threshold) => FailureKeepsInv(p, k, gid, threshold);
    case RateLimit(k, gid, now, resetAt) => RateLimitKeepsInv(p, k, gid, now, resetAt);
    case Add(rows, order) => AddKeysKeepsInv(p, rows, order);
    case Remove(found) => RemoveKeepsInv(p, found);
    case Restore(found) => RestoreKeepsInv(p, found);
    case Recover(_, _) =>
    case DeleteGroup(_, _) =>
  }

  lemma StepKeepsUnique(p: Pool, e: Event)
    requires Inv(p) && Enabled(p, e) && UniqueKeys(p.db)
    ensures UniqueKeys(Step(p, e).db)
  {
    if e.Add? {
      AddKeysKeepsUnique(p, e.rows, e.order);
    } else {
      var db := Step(p, e).db;
      forall i, j | i in db && j in db && i != j
        ensures db[i].groupId != db[j].groupId || db[i].keyValue != db[j].keyValue
      {
        KeyAfterStep(p, e, i);
        KeyAfterStep(p, e, j);
      }
    }
  }

  /** Whatever handlers run, no group ever holds a key text twice. */
  lemma {:induction false} KeysStayUnique(ps: seq<Pool>, es: seq<Event>, i: nat)
    requires IsRun(ps, es) && i <= |es| && Inv(ps[0]) && UniqueKeys(ps[0].db)
    ensures UniqueKeys(ps[i].db)
  {
    if i > 0 {
      KeysStayUnique(ps, es, i - 1);
      RunsKeepInv(ps, es, i - 1);
      StepKeepsUnique(ps[i - 1], es[i - 1]);
    }
  }

  // ---------- Failure counts ----------

  /** A count of failures after one more event: one more for a handled failure, afresh after a reset. */
  ghost function Counted(p: Pool, e: Event, id: nat, before: int): int {
    match e
    case Success(k, _) => if k == id then 0 else before
    case Failure(k, _, _) => if k == id && id in p.db && p.db[id].status != Invalid then before + 1 else before
    case Restore(found) => if id in found then 0 else before
    case Add(rows, _) => if id in rows && Insertable(p.db, rows) then rows[id].failureCount else before
    case _ => before
  }

  ghost function CountAtStart(ps: seq<Pool>, id: nat): int
    requires |ps| > 0
  {
    if id in ps[0].db then ps[0].db[id].failureCount else 0
  }

  /** The failures of a key handled since its last success, restore or creation (or since the start). */
  ghost function Tally(ps: seq<Pool>, es: seq<Event>, id: nat, i: nat): int
    requires IsRun(ps, es) && i <= |es|
  {
    if i == 0 then CountAtStart(ps, id) else Counted(ps[i - 1], es[i - 1], id, Tally(ps, es, id, i - 1))
  }

  /** How the row of key `id` changes in one step. */
  lemma RowAfterStep(p: Pool, e: Event, id: nat)
    requires Inv(p) && Enabled(p, e) && id in Step(p, e).db
    ensures var row := Step(p, e).db[id];
            match e
            case Success(k, _) =>
              id in p.db && row == if k == id then p.db[id].(failureCount := 0, status := Active) else p.db[id]
            case Failure(k, _, threshold) =>
              && id in p.db
              && if k != id || p.db[id].status == Invalid then row == p.db[id]
                 else row.failureCount == p.db[id].failureCount + 1
                      && row.status ==
                         if threshold > 0 && row.failureCount >= threshold then Invalid else p.db[id].status
            case Restore(found) =>
              id in p.db && row == if id in found then p.db[id].(status := Active, failureCount := 0) else p.db[id]
            case Add(rows, _) =>
              if id in rows && Insertable(p.db, rows) then row == rows[id] else id in p.db && row == p.db[id]
            case Recover(k, _) => id in p.db && row == if k == id then RecoveredRow(p.db[id]) else p.db[id]
            case _ =>
              && id in p.db && row.failureCount == p.db[id].failureCount
              && (row.status == Invalid <==> p.db[id].status == Invalid)
  {
    match e
    case SelectKey(gid) => SelectKeepsInv(p, gid);
    case Answered(_) =>
    case Success(k, gid) => SuccessKeepsInv(p, k, gid);
    case Failure(k, gid, threshold) => FailureKeepsInv(p, k, gid, threshold);
    case RateLimit(k, gid, now, resetAt) => RateLimitKeepsInv(p, k, gid, now, resetAt);
    case Add(rows, order) => AddKeysKeepsInv(p, rows, order);
    case Remove(found) => RemoveKeepsInv(p, found);
    case Restore(found) => RestoreKeepsInv(p, found);
    case Recover(_, _) =>
    case DeleteGroup(_, _) =>
  }

  /** A key's failure count is the number of failures handled since its last success or restore. */
  lemma {:induction false} FailureCountIsTally(ps: seq<Pool>, es: seq<Event>, id: nat, i: nat)
    requires IsRun(ps, es) && i <= |es| && Inv(ps[0])
    ensures id in ps[i].db ==> ps[i].db[id].failureCount == Tally(ps, es, id, i)
  {
    if i > 0 && id in ps[i].db {
      FailureCountIsTally(ps, es, id, i - 1);
      RunsKeepInv(ps, es, i - 1);
      RowAfterStep(ps[i - 1], es[i - 1], id);
    }
  }

  /** Every failure is judged by the same threshold, and new keys start below it. */
  ghost predicate FixedThreshold(es: seq<Event>, threshold: int) {
    forall i :: 0 <= i < |es| ==>
      && (es[i].Failure? ==> es[i].threshold == threshold)
      && (es[i].Add? ==> BelowThreshold(es[i].rows, threshold))
  }

  /** No recovery overtook the failure that made its key invalid. */
  ghost predicate RecoveredInTime(ps: seq<Pool>, es: seq<Event>, threshold: int)
    requires IsRun(ps, es)
  {
    forall i :: 0 <= i < |es| && es[i].Recover? ==> !Overtaken(ps[i].db, es[i].id, threshold)
  }

  /** A key that is not invalid has fewer failures than the threshold, in every state of every run. */
  lemma {:induction false} ValidKeysStayBelowThreshold(ps: seq<Pool>, es: seq<Event>, threshold: int, i: nat)
    requires IsRun(ps, es) && i <= |es| && Inv(ps[0])
    requires 0 < threshold && FixedThreshold(es, threshold) && RecoveredInTime(ps, es, threshold)
    requires BelowThreshold(ps[0].db, threshold)
    ensures BelowThreshold(ps[i].db, threshold)
  {
    if i > 0 {
      ValidKeysStayBelowThreshold(ps, es, threshold, i - 1);
      RunsKeepInv(ps, es, i - 1);
      if es[i - 1].Recover? {
        RecoveredBelowThreshold(ps[i - 1], es[i - 1].id, es[i - 1].gid, threshold);
      }
      forall id | id in ps[i].db && ps[i].db[id].status != Invalid
        ensures ps[i].db[id].failureCount < threshold
      {
        RowAfterStep(ps[i - 1], es[i - 1], id);
      }
    }
  }

  /** The failure that brings the tally to the threshold makes the key invalid at once. */
  lemma FailureAtThresholdInvalidates(ps: seq<Pool>, es: seq<Event>, i: nat)
    requires IsRun(ps, es) && i < |es| && Inv(ps[0]) && es[i].Failure? && es[i].threshold > 0
    requires var id := es[i].id; id in ps[i].db && ps[i].db[id].status != Invalid
    ensures var id := es[i].id;
            && id in ps[i + 1].db
            && (ps[i + 1].db[id].status == Invalid <==> Tally(ps, es, id, i) + 1 >= es[i].threshold)
  {
    RunsKeepInv(ps, es, i);
    FailureCountIsTally(ps, es, es[i].id, i);
    FailureKeepsInv(ps[i], es[i].id, es[i].gid, es[i].threshold);
  }

  /** Events that give key `id` back to its group. */
  predicate Revives(e: Event, id: nat) {
    match e
    case Success(k, _) => k == id
    case Restore(found) => id in found
    case Add(rows, _) => id in rows
    case Recover(k, _) => k == id
    case _ => false
  }

  lemma StaysInvalid(p: Pool, e: Event, id: nat)
    requires Inv(p) && Enabled(p, e) && !Revives(e, id) && (id in p.db ==> p.db[id].status == Invalid)
    ensures id in Step(p, e).db ==> Step(p, e).db[id].status == Invalid
  {
    if id in Step(p, e).db {
      RowAfterStep(p, e, id);
    }
  }

  /** An invalid key stays invalid and is never selected until a success, a restore or a recovery. */
  lemma {:induction false} InvalidKeyIsNotSelected(ps: seq<Pool>, es: seq<Event>, id: nat, i: nat, j: nat, gid: nat)
    requires IsRun(ps, es) && i <= j <= |es| && Inv(ps[0])
    requires id in ps[i].db ==> ps[i].db[id].status == Invalid
    requires forall k :: i <= k < j ==> !Revives(es[k], id)
    ensures id in ps[j].db ==> ps[j].db[id].status == Invalid
    ensures NextKey(ps[j], gid) != Some(id)
  {
    RunsKeepInv(ps, es, j);
    if j > i {
      InvalidKeyIsNotSelected(ps, es, id, i, j - 1, gid);
      RunsKeepInv(ps, es, j - 1);
      StaysInvalid(ps[j - 1], es[j - 1], id);
    }
    if NextKey(ps[j], gid) == Some(id) {
      SelectedKeyIsActive(ps[j], gid);
    }
  }

  // ---------- Rotation ----------

  function SelectN(p: Pool, gid: nat, n: nat): Pool {
    if n == 0 then p else Select(SelectN(p, gid, n - 1), gid)
  }

  /** The list after n rotations. */
  function RotatedBy<T>(list: seq<T>, n: nat): (r: seq<T>)
    requires n <= |list|
    ensures |r| == |list|
  {
    if n == 0 then list else Rotated(RotatedBy(list, n - 1))
  }

  lemma {:induction false} RotatedByIsShift<T>(list: seq<T>, n: nat)
    requires n <= |list|
    ensures RotatedBy(list, n) == list[|list| - n..] + list[..|list| - n]
  {
    if n > 0 {
      RotatedByIsShift(list, n - 1);
    }
  }

  lemma SelectOnList(p: Pool, gid: nat, list: seq<nat>)
    requires list != []
    ensures Select(p.(lists := p.lists[gid := list]), gid) == p.(lists := p.lists[gid := Rotated(list)])
  {
    assert p.lists[gid := list][gid := Rotated(list)] == p.lists[gid := Rotated(list)];
  }

  lemma {:induction false} SelectNRotates(p: Pool, gid: nat, n: nat)
    requires gid in p.lists && n <= |p.lists[gid]|
    ensures SelectN(p, gid, n) == p.(lists := p.lists[gid := RotatedBy(p.lists[gid], n)])
  {
    if n == 0 {
      assert p.lists[gid := p.lists[gid]] == p.lists;
    } else {
      SelectNRotates(p, gid, n - 1);
      SelectOnList(p, gid, RotatedBy(p.lists[gid], n - 1));
    }
  }

  lemma KthSelection(p: Pool, gid: nat, k: nat)
    requires k < |Listed(p, gid)|
    ensures NextKey(SelectN(p, gid, k), gid) == Some(Listed(p, gid)[|Listed(p, gid)| - 1 - k])
  {
    SelectNRotates(p, gid, k);
    RotatedByIsShift(p.lists[gid], k);
  }

  /** The k-th of m consecutive selections takes the k-th key from the back, and m of them restore the pool. */
  lemma RotationIsFair(p: Pool, gid: nat)
    ensures var list := Listed(p, gid); var m := |list|;
            && (forall k: nat :: k < m ==> NextKey(SelectN(p, gid, k), gid) == Some(list[m - 1 - k]))
            && SelectN(p, gid, m) == p
  {
    forall k: nat | k < |Listed(p, gid)|
      ensures NextKey(SelectN(p, gid, k), gid) == Some(Listed(p, gid)[|Listed(p, gid)| - 1 - k])
    {
      KthSelection(p, gid, k);
    }
    if gid in p.lists {
      var list := p.lists[gid];
      SelectNRotates(p, gid, |list|);
      RotatedByIsShift(list, |list|);
      assert list[0..] + list[..0] == list;
      assert p.lists[gid := list] == p.lists;
    }
  }

  /** Before its own turn at the end of the round, a key put in front of the list changes no selection. */
  lemma FrontIsSelectedLast(p: Pool, q: Pool, gid: nat, id: nat, k: nat)
    requires Listed(q, gid) == [id] + Listed(p, gid) && k <= |Listed(p, gid)|
    ensures NextKey(SelectN(q, gid, k), gid) ==
            if k < |Listed(p, gid)| then NextKey(SelectN(p, gid, k), gid) else Some(id)
  {
    KthSelection(q, gid, k);
    if k < |Listed(p, gid)| {
      KthSelection(p, gid, k);
    }
  }

  /**
   A key brought back by a success or by its recovery waits for all the others: they are selected in the
   order they would have been selected in without it, and then the key.
   */
  lemma RevivedKeyComesLast(p: Pool, gid: nat, id: nat, k: nat)
    requires Inv(p) && id in p.db && p.db[id].groupId == gid && p.db[id].status != Active && k <= |Listed(p, gid)|
    ensures var next := if k < |Listed(p, gid)| then NextKey(SelectN(p, gid, k), gid) else Some(id);
            && NextKey(SelectN(HandleSuccess(p, id, gid), gid, k), gid) == next
            && NextKey(SelectN(RecoverOne(p, id, gid), gid, k), gid) == next
  {
    assert Agrees(p, id);
    WithoutAbsent(Listed(p, gid), id);
    RevivedKeyIsRelisted(p, gid, id);
    FrontIsSelectedLast(p, HandleSuccess(p, id, gid), gid, id, k);
    FrontIsSelectedLast(p, RecoverOne(p, id, gid), gid, id, k);
  }

  lemma RevivedKeyIsRelisted(p: Pool, gid: nat, id: nat)
    requires Agrees(p, id) && id in p.db && p.db[id].status != Active && Without(Listed(p, gid), id) == Listed(p, gid)
    ensures Listed(HandleSuccess(p, id, gid), gid) == Listed(RecoverOne(p, id, gid), gid) == [id] + Listed(p, gid)
  {
    assert Field(Details(p, id), STATUS) == StatusText(p.db[id].status) != StatusText(Active);
  }

  /** With no status change, as many selections as there are active keys return each of them exactly once. */
  lemma EachActiveKeyOncePerRound(p: Pool, gid: nat, id: nat)
    requires Inv(p) && id in p.db && p.db[id].groupId == gid && p.db[id].status == Active
    ensures exists k: nat :: k < |Listed(p, gid)| && NextKey(SelectN(p, gid, k), gid) == Some(id)
    ensures forall j: nat, k: nat :: j < k < |Listed(p, gid)| ==>
              NextKey(SelectN(p, gid, j), gid) != NextKey(SelectN(p, gid, k), gid)
  {
    RotationIsFair(p, gid);
    assert Agrees(p, id);
    var list, m := Listed(p, gid), |Listed(p, gid)|;
    var k: nat :| k < m && list[k] == id;
    assert NextKey(SelectN(p, gid, m - 1 - k), gid) == Some(list[m - 1 - (m - 1 - k)]);
    assert NoDuplicates(list);
  }
}
