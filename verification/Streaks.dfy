/**
 Consecutive failures: what the documentation of the blacklist threshold counts, next to what the pool
 counts.  The pool is not told of answered requests, so it does not start afresh after one.
 */
module Streaks {
  import opened Pools
  import opened PoolRuns

  /** The failures of a key since its last answered request, success, restore or creation. */
  ghost function Streak(ps: seq<Pool>, es: seq<Event>, id: nat, i: nat): int
    requires IsRun(ps, es) && i <= |es|
  {
    if i == 0 then CountAtStart(ps, id)
    else if es[i - 1] == Answered(id) then 0
    else Counted(ps[i - 1], es[i - 1], id, Streak(ps, es, id, i - 1))
  }

  /** Events after which a key's failures are counted afresh. */
  ghost predicate Resets(p: Pool, e: Event, id: nat) {
    match e
    case Success(k, _) => k == id
    case Restore(found) => id in found
    case Add(rows, _) => id in rows && Insertable(p.db, rows)
    case _ => false
  }

  /** Request j was answered with a key that has failures, and these have not been forgotten before event i. */
  ghost predicate Overlooked(ps: seq<Pool>, es: seq<Event>, id: nat, j: nat, i: nat)
    requires IsRun(ps, es) && j < i <= |es|
  {
    && es[j] == Answered(id) && id in ps[j].db && ps[j].db[id].failureCount > 0
    && forall k :: j < k < i ==> !Resets(ps[k], es[k], id)
  }

  ghost predicate NothingOverlooked(ps: seq<Pool>, es: seq<Event>, id: nat, i: nat)
    requires IsRun(ps, es) && i <= |es|
  {
    forall j: nat :: j < i ==> !Overlooked(ps, es, id, j, i)
  }

  ghost predicate NoNegativeCounts(ps: seq<Pool>, es: seq<Event>)
    requires IsRun(ps, es)
  {
    && (forall id :: id in ps[0].db ==> ps[0].db[id].failureCount >= 0)
    && forall i :: 0 <= i < |es| && es[i].Add? ==> forall id :: id in es[i].rows ==> es[i].rows[id].failureCount >= 0
  }

  lemma OverlookedEarlier(ps: seq<Pool>, es: seq<Event>, id: nat, i: nat)
    requires IsRun(ps, es) && 0 < i <= |es|
    requires es[i - 1] != Answered(id) && !Resets(ps[i - 1], es[i - 1], id)
    ensures NothingOverlooked(ps, es, id, i) <==> NothingOverlooked(ps, es, id, i - 1)
  {
    var before := i - 1;
    forall j: nat | j < before ensures Overlooked(ps, es, id, j, i) <==> Overlooked(ps, es, id, j, before) {
    }
    assert !Overlooked(ps, es, id, before, i);
    if NothingOverlooked(ps, es, id, i) {
      forall j: nat | j < before ensures !Overlooked(ps, es, id, j, before) {
        assert !Overlooked(ps, es, id, j, i);
      }
    }
  }

  lemma ResetForgets(ps: seq<Pool>, es: seq<Event>, id: nat, i: nat)
    requires IsRun(ps, es) && 0 < i <= |es| && Resets(ps[i - 1], es[i - 1], id)
    ensures NothingOverlooked(ps, es, id, i)
  {
  }

  /**
   A key's consecutive failures never exceed its tally, and equal it exactly when no request was answered
   with the key while its row showed failures, since its last success, restore or creation.
   */
  lemma {:induction false} StreakIsTally(ps: seq<Pool>, es: seq<Event>, id: nat, i: nat)
    requires IsRun(ps, es) && i <= |es| && Inv(ps[0]) && NoNegativeCounts(ps, es) && id in ps[i].db
    ensures 0 <= Streak(ps, es, id, i) <= Tally(ps, es, id, i)
    ensures Streak(ps, es, id, i) == Tally(ps, es, id, i) <==> NothingOverlooked(ps, es, id, i)
  {
    if i > 0 {
      var p, e := ps[i - 1], es[i - 1];
      RunsKeepInv(ps, es, i - 1);
      RowAfterStep(p, e, id);
      if Resets(p, e, id) {
        ResetForgets(ps, es, id, i);
      } else {
        StreakIsTally(ps, es, id, i - 1);
        if e == Answered(id) {
          AnswerOverlooks(ps, es, id, i);
        } else {
          OverlookedEarlier(ps, es, id, i);
        }
      }
    }
  }

  lemma AnswerOverlooks(ps: seq<Pool>, es: seq<Event>, id: nat, i: nat)
    requires IsRun(ps, es) && 0 < i <= |es| && Inv(ps[0]) && es[i - 1] == Answered(id) && id in ps[i - 1].db
    requires 0 <= Streak(ps, es, id, i - 1) <= Tally(ps, es, id, i - 1)
    requires Streak(ps, es, id, i - 1) == Tally(ps, es, id, i - 1) <==> NothingOverlooked(ps, es, id, i - 1)
    ensures Tally(ps, es, id, i) == 0 <==> NothingOverlooked(ps, es, id, i)
  {
    FailureCountIsTally(ps, es, id, i - 1);
    if Tally(ps, es, id, i) == 0 {
      forall j: nat | j < i ensures !Overlooked(ps, es, id, j, i) {
        if j < i - 1 {
          assert !Overlooked(ps, es, id, j, i - 1);
        }
      }
    } else {
      assert Overlooked(ps, es, id, i - 1, i);
    }
  }

  /**
   The next failure is judged as documented, whatever the threshold, exactly when no answered request was
   overlooked: then, and only then, consecutive failures decide.
   */
  lemma JudgedByConsecutiveFailures(ps: seq<Pool>, es: seq<Event>, id: nat, gid: nat, i: nat)
    requires IsRun(ps, es) && i <= |es| && Inv(ps[0]) && NoNegativeCounts(ps, es)
    requires id in ps[i].db && ps[i].db[id].groupId == gid && ps[i].db[id].status != Invalid
    ensures (forall threshold: int :: threshold > 0 ==>
               (HandleFailure(ps[i], id, gid, threshold).db[id].status == Invalid <==>
                  Streak(ps, es, id, i) + 1 >= threshold))
            <==> NothingOverlooked(ps, es, id, i)
  {
    StreakIsTally(ps, es, id, i);
    FailureCountIsTally(ps, es, id, i);
    RunsKeepInv(ps, es, i);
    forall threshold: int | threshold > 0
      ensures HandleFailure(ps[i], id, gid, threshold).db[id].status == Invalid <==>
              Tally(ps, es, id, i) + 1 >= threshold
    {
      FailureKeepsInv(ps[i], id, gid, threshold);
    }
    var threshold := Tally(ps, es, id, i) + 1;
    assert HandleFailure(ps[i], id, gid, threshold).db[id].status == Invalid;
  }
}
