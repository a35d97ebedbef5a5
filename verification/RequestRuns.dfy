/** Requests as runs of the key pool, and what they make of the threshold for consecutive failures. */
module RequestRuns {
  import opened Wrappers
  import opened Pools
  import opened PoolBatches
  import opened PoolRuns
  import opened Proxy

  function EventOf(gid: nat, cfg: Config, now: int, u: Update): Event {
    match u
    case FailureUpdate(id) => Failure(id, gid, cfg.blacklistThreshold)
    case RateLimitUpdate(id, resetAt) => RateLimit(id, gid, now, resetAt)
  }

  lemma RunsJoin(ps: seq<Pool>, es: seq<Event>, qs: seq<Pool>, fs: seq<Event>)
    requires IsRun(ps, es) && IsRun(qs, fs) && ps[|es|] == qs[0]
    ensures IsRun(ps[..|es|] + qs, es + fs)
  {
    var all, events := ps[..|es|] + qs, es + fs;
    forall i | 0 <= i < |events| ensures Enabled(all[i], events[i]) && all[i + 1] == Step(all[i], events[i]) {
      if i < |es| {
        assert Enabled(ps[i], es[i]) && ps[i + 1] == Step(ps[i], es[i]);
      } else {
        assert Enabled(qs[i - |es|], fs[i - |es|]) && qs[i - |es| + 1] == Step(qs[i - |es|], fs[i - |es|]);
      }
    }
  }

  lemma OneEvent(p: Pool, e: Event)
    requires Enabled(p, e)
    ensures IsRun([p, Step(p, e)], [e])
  {
  }

  // ---------- Every failure reported once ----------

  /** The status updates among the events, in order. */
  function UpdatesOf(es: seq<Event>): seq<Update> {
    if es == [] then []
    else
      var before := UpdatesOf(es[..|es| - 1]);
      match es[|es| - 1]
      case Failure(id, _, _) => before + [FailureUpdate(id)]
      case RateLimit(id, _, _, resetAt) => before + [RateLimitUpdate(id, resetAt)]
      case _ => before
  }

  lemma {:induction false} UpdatesAppend(es: seq<Event>, fs: seq<Event>)
    ensures UpdatesOf(es + fs) == UpdatesOf(es) + UpdatesOf(fs)
  {
    if fs == [] {
      assert es + fs == es;
    } else {
      assert (es + fs)[..|es + fs| - 1] == es + fs[..|fs| - 1];
      UpdatesAppend(es, fs[..|fs| - 1]);
    }
  }

  /** What the attempts report of their keys, in turn: a rate limit with its reset time, or else a failure. */
  function Reported(env: Environment, keys: seq<nat>, retryCount: nat, retries: nat): seq<Update>
    requires retryCount <= retries <= retryCount + |keys|
    requires forall i :: retryCount <= i < retries ==> Retried(env(i).exchange)
    decreases retries - retryCount
  {
    if retryCount == retries then []
    else
      assert Retried(env(retryCount).exchange);
      var rateLimit := env(retryCount).exchange.rateLimit;
      [if rateLimit.Some? then RateLimitUpdate(keys[0], rateLimit.value) else FailureUpdate(keys[0])]
      + Reported(env, keys[1..], retryCount + 1, retries)
  }

  /** Every status update among the events is the group's, and judged by the group's threshold. */
  predicate OfGroup(es: seq<Event>, gid: nat, cfg: Config) {
    forall i :: 0 <= i < |es| ==>
      && (es[i].Failure? ==> es[i].gid == gid && es[i].threshold == cfg.blacklistThreshold)
      && (es[i].RateLimit? ==> es[i].gid == gid)
  }

  predicate NoAnswer(es: seq<Event>) {
    forall i :: 0 <= i < |es| ==> !es[i].Answered?
  }

  lemma TakenOut(pending: seq<Update>, k: nat)
    requires k < |pending|
    ensures multiset(pending) == multiset(WithoutAt(pending, k)) + multiset([pending[k]])
  {
    assert pending == pending[..k] + [pending[k]] + pending[k + 1..];
  }

  lemma OneMoreLanded(u: Update, landed: seq<Update>, rest: seq<Update>, without: seq<Update>, pending: seq<Update>)
    requires multiset(pending) == multiset(without) + multiset([u])
    requires multiset(landed) + multiset(rest) == multiset(without)
    ensures multiset([u] + landed) + multiset(rest) == multiset(pending)
  {
    var before, after := multiset([u] + landed) + multiset(rest), multiset(pending);
    forall x: Update ensures before[x] == after[x] {
      var tail := multiset(landed) + multiset(rest);
      assert tail[x] == multiset(without)[x];
    }
  }

  lemma UpdateIsEvent(p: Pool, gid: nat, cfg: Config, now: int, u: Update) returns (e: Event)
    requires Inv(p) && u.id in p.db && p.db[u.id].groupId == gid
    ensures Enabled(p, e) && Step(p, e) == Apply(p, gid, cfg, now, u)
    ensures UpdatesOf([e]) == [u] && OfGroup([e], gid, cfg) && NoAnswer([e])
  {
    e := EventOf(gid, cfg, now, u);
    assert [e][..0] == [];
  }

  lemma {:induction false} LandIsRun(p: Pool, gid: nat, cfg: Config, now: int, pending: seq<Update>, landing: seq<nat>)
    returns (ps: seq<Pool>, es: seq<Event>)
    requires Inv(p) && UpdatesOfGroup(p, gid, pending)
    ensures var (q, rest) := Land(p, gid, cfg, now, pending, landing);
            && IsRun(ps, es) && ps[0] == p && ps[|es|] == q && NoAnswer(es) && OfGroup(es, gid, cfg)
            && multiset(UpdatesOf(es)) + multiset(rest) == multiset(pending)
    decreases |landing|
  {
    if landing == [] {
      ps, es := [p], [];
    } else if landing[0] >= |pending| {
      ps, es := LandIsRun(p, gid, cfg, now, pending, landing[1..]);
    } else {
      var k := landing[0];
      var u := pending[k];
      var e := UpdateIsEvent(p, gid, cfg, now, u);
      var q := Apply(p, gid, cfg, now, u);
      ApplyKeepsInv(p, gid, cfg, now, u);
      OneEvent(p, e);
      var qs, fs := LandIsRun(q, gid, cfg, now, WithoutAt(pending, k), landing[1..]);
      RunsJoin([p, q], [e], qs, fs);
      ps, es := [p, q][..1] + qs, [e] + fs;
      UpdatesAppend([e], fs);
      TakenOut(pending, k);
      OneMoreLanded(u, UpdatesOf(fs), Land(q, gid, cfg, now, WithoutAt(pending, k), landing[1..]).1,
                    WithoutAt(pending, k), pending);
    }
  }

  /** Each retried attempt reported its key once: the report has landed as an event or is still pending. */
  predicate ReportedOnce(env: Environment, retryCount: nat, pending: seq<Update>, r: Outcomes, es: seq<Event>) {
    && retryCount <= r.retries <= retryCount + |r.keys|
    && (forall i :: retryCount <= i < r.retries ==> Retried(env(i).exchange))
    && multiset(UpdatesOf(es)) + multiset(r.pending) ==
       multiset(pending) + multiset(Reported(env, r.keys, retryCount, r.retries))
  }

  lemma ReportsAddUp(gs: seq<Update>, fs: seq<Update>, pending: seq<Update>, u: Update, left: seq<Update>,
                     rest: seq<Update>, later: seq<Update>)
    requires multiset(gs) + multiset(left) == multiset(pending + [u])
    requires multiset(fs) + multiset(rest) == multiset(left) + multiset(later)
    ensures multiset(gs + fs) + multiset(rest) == multiset(pending) + multiset([u] + later)
  {
    var before, after := multiset(gs + fs) + multiset(rest), multiset(pending) + multiset([u] + later);
    forall x: Update ensures before[x] == after[x] {
      var ones, twos := multiset(gs) + multiset(left), multiset(fs) + multiset(rest);
      assert ones[x] == multiset(pending)[x] + multiset([u])[x];
      assert twos[x] == multiset(left)[x] + multiset(later)[x];
    }
  }

  lemma FirstReport(env: Environment, id: nat, keys: seq<nat>, retryCount: nat, retries: nat)
    requires retryCount + 1 <= retries <= retryCount + 1 + |keys| && env(retryCount).Outcome().Failed?
    requires forall i :: retryCount + 1 <= i < retries ==> Retried(env(i).exchange)
    ensures Retried(env(retryCount).exchange)
    ensures Reported(env, [id] + keys, retryCount, retries) ==
            [UpdateFor(id, env(retryCount).Outcome())] + Reported(env, keys, retryCount + 1, retries)
  {
    FailureIsRetried(env(retryCount));
    assert ([id] + keys)[1..] == keys;
  }

  lemma OneMoreReport(env: Environment, retryCount: nat, pending: seq<Update>, left: seq<Update>, rest: Outcomes,
                      id: nat, gs: seq<Event>, fs: seq<Event>)
    requires ReportedOnce(env, retryCount + 1, left, rest, fs) && env(retryCount).Outcome().Failed?
    requires multiset(UpdatesOf(gs)) + multiset(left) ==
             multiset(pending + [UpdateFor(id, env(retryCount).Outcome())])
    ensures ReportedOnce(env, retryCount, pending, rest.(keys := [id] + rest.keys, sent := rest.sent + 1), gs + fs)
  {
    UpdatesAppend(gs, fs);
    FirstReport(env, id, rest.keys, retryCount, rest.retries);
    ReportsAddUp(UpdatesOf(gs), UpdatesOf(fs), pending, UpdateFor(id, env(retryCount).Outcome()), left, rest.pending,
                 Reported(env, rest.keys, retryCount + 1, rest.retries));
  }

  lemma SelectionReportsNothing(gid: nat, id: nat)
    ensures UpdatesOf([SelectKey(gid)]) == [] && UpdatesOf([SelectKey(gid), Event.Answered(id)]) == []
  {
    assert [SelectKey(gid)][..0] == [];
    assert [SelectKey(gid), Event.Answered(id)][..1] == [SelectKey(gid)];
  }

  /** A forwarded answer is the last event, with the key used last; no other event is an answer. */
  predicate AnswerComesLast(reply: Reply, keys: seq<nat>, es: seq<Event>) {
    if reply.Forwarded? then
      && |keys| > 0 && |es| > 0 && es[|es| - 1] == Event.Answered(keys[|keys| - 1])
      && NoAnswer(es[..|es| - 1])
    else NoAnswer(es)
  }

  lemma AnswerStaysLast(reply: Reply, id: nat, keys: seq<nat>, es: seq<Event>, fs: seq<Event>)
    requires AnswerComesLast(reply, keys, fs) && NoAnswer(es)
    ensures AnswerComesLast(reply, [id] + keys, es + fs)
  {
    if reply.Forwarded? {
      assert (es + fs)[..|es + fs| - 1] == es + fs[..|fs| - 1];
    }
  }

  /**
   What a request does to the pool is a run of selections, failures and rate limits; a forwarded answer
   shows as one event, the last, with the key it was got with.  Each retried attempt i reports the key it used:
   a rate limit with its reset time exactly when its exchange read as one, and a failure otherwise.
   */
  lemma {:induction false} RequestIsRun(p: Pool, gid: nat, cfg: Config, env: Environment, retryCount: nat,
                                        errors: seq<RetryError>, pending: seq<Update>)
    returns (ps: seq<Pool>, es: seq<Event>)
    requires Inv(p) && UpdatesOfGroup(p, gid, pending)
    ensures var r := Request(p, gid, cfg, env, retryCount, errors, pending);
            && IsRun(ps, es) && ps[0] == p && ps[|es|] == r.pool
            && AnswerComesLast(r.reply, r.keys, es)
            && OfGroup(es, gid, cfg) && ReportedOnce(env, retryCount, pending, r, es)
    decreases cfg.maxRetries + 1 - retryCount
  {
    if FailsAt(p, gid, cfg, env, retryCount) {
      var (landed, left) := AfterFailure(p, gid, cfg, env(retryCount), pending);
      var error := ErrorAfter(p, gid, env(retryCount), retryCount + 1);
      FailureKeepsKeys(p, gid, cfg, env(retryCount), pending);
      var us, gs := FailureIsRun(p, gid, cfg, env(retryCount), pending);
      var qs, fs := RequestIsRun(landed, gid, cfg, env, retryCount + 1, errors + [error], left);
      RequestStep(p, gid, cfg, env, retryCount, errors, pending);
      var rest := Request(landed, gid, cfg, env, retryCount + 1, errors + [error], left);
      AnswerStaysLast(rest.reply, NextKey(p, gid).value, rest.keys, gs, fs);
      OneMoreReport(env, retryCount, pending, left, rest, NextKey(p, gid).value, gs, fs);
      RunsJoin(us, gs, qs, fs);
      ps, es := us[..|gs|] + qs, gs + fs;
    } else {
      ps, es := LastAttemptIsRun(p, gid, cfg, env, retryCount, errors, pending);
    }
  }

  /** A failed attempt: a selection, and then whatever updates land. */
  lemma FailureIsRun(p: Pool, gid: nat, cfg: Config, attempt: Attempt, pending: seq<Update>)
    returns (ps: seq<Pool>, es: seq<Event>)
    requires Inv(p) && UpdatesOfGroup(p, gid, pending) && NextKey(p, gid).Some? && attempt.Outcome().Failed?
    ensures var (landed, left) := AfterFailure(p, gid, cfg, attempt, pending);
            && IsRun(ps, es) && ps[0] == p && ps[|es|] == landed && NoAnswer(es) && OfGroup(es, gid, cfg)
            && multiset(UpdatesOf(es)) + multiset(left) ==
               multiset(pending + [UpdateFor(NextKey(p, gid).value, attempt.Outcome())])
  {
    SelectKeepsKeys(p, gid, pending);
    var updates := pending + [UpdateFor(NextKey(p, gid).value, attempt.Outcome())];
    var us, gs := LandIsRun(Select(p, gid), gid, cfg, attempt.now, updates, attempt.landing);
    OneEvent(p, SelectKey(gid));
    RunsJoin([p, Select(p, gid)], [SelectKey(gid)], us, gs);
    ps, es := [p, Select(p, gid)][..1] + us, [SelectKey(gid)] + gs;
    UpdatesAppend([SelectKey(gid)], gs);
    SelectionReportsNothing(gid, 0);
  }

  lemma LastAttemptIsRun(p: Pool, gid: nat, cfg: Config, env: Environment, retryCount: nat,
                         errors: seq<RetryError>, pending: seq<Update>)
    returns (ps: seq<Pool>, es: seq<Event>)
    requires !FailsAt(p, gid, cfg, env, retryCount)
    ensures var r := Request(p, gid, cfg, env, retryCount, errors, pending);
            && IsRun(ps, es) && ps[0] == p && ps[|es|] == r.pool
            && AnswerComesLast(r.reply, r.keys, es)
            && OfGroup(es, gid, cfg) && ReportedOnce(env, retryCount, pending, r, es)
  {
    var r := Request(p, gid, cfg, env, retryCount, errors, pending);
    SelectionReportsNothing(gid, if r.keys == [] then 0 else r.keys[0]);
    if r.keys == [] {
      ps, es := [p], [];
    } else {
      var q := Select(p, gid);
      ps, es := [p, q], [SelectKey(gid)];
      if r.reply.Forwarded? {
        ps, es := [p, q, q], [SelectKey(gid), Event.Answered(r.keys[0])];
        assert es[..1] == [SelectKey(gid)];
      }
    }
  }

  // ---------- One attempt, judged by what it met ----------

  function Always(attempt: Attempt): Environment {
    (k: nat) => attempt
  }

  /** A request without retries whose one attempt fails and whose report lands. */
  lemma OneAttempt(p: Pool, gid: nat, threshold: int, attempt: Attempt)
    requires NextKey(p, gid).Some? && attempt.Outcome().Failed? && attempt.landing == [0]
    ensures var u := UpdateFor(NextKey(p, gid).value, attempt.Outcome()); var cfg := Config(0, threshold);
            Request(p, gid, cfg, Always(attempt), 0, [], []).pool == Apply(Select(p, gid), gid, cfg, attempt.now, u)
  {
    var cfg, env := Config(0, threshold), Always(attempt);
    var u := UpdateFor(NextKey(p, gid).value, attempt.Outcome());
    RequestStep(p, gid, cfg, env, 0, [], []);
    assert [] + [u] == [u];
    assert Land(Select(p, gid), gid, cfg, attempt.now, [u], [0]) ==
           Land(Apply(Select(p, gid), gid, cfg, attempt.now, u), gid, cfg, attempt.now, WithoutAt([u], 0), [0][1..]);
  }

  /**
   The row of the key a failed attempt used: rate-limited with one more rate limit and no more failures, if
   the exchange read as a rate limit; one more failure, and invalid at the threshold, if not.
   */
  lemma FailedAttemptMarksItsKey(p: Pool, gid: nat, threshold: int, attempt: Attempt)
    requires Inv(p) && NextKey(p, gid).Some? && Retried(attempt.exchange) && attempt.landing == [0]
    ensures var id := NextKey(p, gid).value;
            var q := Request(p, gid, Config(0, threshold), Always(attempt), 0, [], []).pool;
            && Inv(q) && id in p.db && q.db.Keys == p.db.Keys
            && (forall other :: other in p.db && other != id ==> q.db[other] == p.db[other])
            && q.db[id] ==
               match attempt.exchange.rateLimit
               case Some(resetAt) =>
                 p.db[id].(status := RateLimited, rateLimitCount := p.db[id].rateLimitCount + 1,
                           last429At := Some(attempt.now),
                           rateLimitResetAt := if resetAt.Some? then resetAt else p.db[id].rateLimitResetAt)
               case None =>
                 var count := p.db[id].failureCount + 1;
                 p.db[id].(failureCount := count,
                           status := if threshold > 0 && count >= threshold then Invalid else Active)
  {
    var id, q := NextKey(p, gid).value, Select(p, gid);
    FailureIsRetried(attempt);
    OneAttempt(p, gid, threshold, attempt);
    SelectKeepsInv(p, gid);
    SelectedKeyIsActive(p, gid);
    match attempt.exchange.rateLimit
    case Some(resetAt) => RateLimitKeepsInv(q, id, gid, attempt.now, resetAt);
    case None => FailureKeepsInv(q, id, gid, threshold);
  }

  // ---------- A failure, an answer, a failure ----------

  lemma AnsweredRequest(p: Pool, gid: nat, threshold: int, id: nat)
    requires NextKey(p, gid) == Some(id)
    ensures var r := Request(p, gid, Config(0, threshold), Always(SUCCEEDS), 0, [], []);
            r.pool == Select(p, gid) && r.reply == Forwarded(200) && r.keys == [id]
  {
  }

  const FAILS := Attempt("u", Response(500, "", "", None), [0], 0)
  const SUCCEEDS := Attempt("u", Response(200, "", "", None), [], 0)

  /** The table holds one key, and it is active. */
  ghost predicate OnlyKey(p: Pool, row: Row) {
    Inv(p) && p.db == map[7 := row] && row.groupId == 1 && row.status == Active
  }

  lemma OnlyKeyIsNext(p: Pool, row: Row)
    requires OnlyKey(p, row)
    ensures NextKey(p, 1) == Some(7)
  {
    assert 7 in Listed(p, 1) by {
      assert Agrees(p, 7);
    }
    var last := Listed(p, 1)[|Listed(p, 1)| - 1];
    assert last in p.db by {
      assert last in Listed(p, 1) && Agrees(p, last);
    }
  }

  lemma SelectKeepsOnlyKey(p: Pool, row: Row)
    requires OnlyKey(p, row)
    ensures OnlyKey(Select(p, 1), row)
  {
    SelectKeepsInv(p, 1);
  }

  lemma HandledFailure(p: Pool, row: Row, threshold: int)
    requires OnlyKey(p, row) && threshold > 0
    ensures var q := HandleFailure(p, 7, 1, threshold); var count := row.failureCount + 1;
            && Inv(q)
            && q.db == map[7 := row.(failureCount := count, status := if count >= threshold then Invalid else Active)]
  {
    FailureKeepsInv(p, 7, 1, threshold);
  }

  lemma OnlyKeyFails(p: Pool, row: Row, threshold: int) returns (r: Outcomes)
    requires OnlyKey(p, row) && threshold > 0
    ensures r == Request(p, 1, Config(0, threshold), Always(FAILS), 0, [], []) && Inv(r.pool)
    ensures var count := row.failureCount + 1;
            r.pool.db == map[7 := row.(failureCount := count, status := if count >= threshold then Invalid else Active)]
  {
    OnlyKeyIsNext(p, row);
    SelectKeepsOnlyKey(p, row);
    HandledFailure(Select(p, 1), row, threshold);
    OneAttempt(p, 1, threshold, FAILS);
    r := Request(p, 1, Config(0, threshold), Always(FAILS), 0, [], []);
  }

  lemma OnlyKeyAnswers(p: Pool, row: Row, threshold: int) returns (r: Outcomes)
    requires OnlyKey(p, row)
    ensures r == Request(p, 1, Config(0, threshold), Always(SUCCEEDS), 0, [], [])
    ensures OnlyKey(r.pool, row) && r.reply == Forwarded(200) && r.keys == [7]
  {
    OnlyKeyIsNext(p, row);
    AnsweredRequest(p, 1, threshold, 7);
    r := Request(p, 1, Config(0, threshold), Always(SUCCEEDS), 0, [], []);
    SelectKeepsOnlyKey(p, row);
  }

  /**
   Two failures with an answered request in between make a freshly loaded key invalid under threshold 2,
   although its failures are not consecutive.
   */
  lemma AnswerDoesNotStartAfresh() returns (p: Pool, r1: Outcomes, r2: Outcomes, r3: Outcomes)
    ensures var row := Row("k", 1, Active, 0, 0, None, None, 0);
            && p == LoadKeys(Pool(map[7 := row], map[], map[]), [7])
            && r1 == Request(p, 1, Config(0, 2), Always(FAILS), 0, [], [])
            && r2 == Request(r1.pool, 1, Config(0, 2), Always(SUCCEEDS), 0, [], [])
            && r3 == Request(r2.pool, 1, Config(0, 2), Always(FAILS), 0, [], [])
            && r1.pool.db == map[7 := row.(failureCount := 1)]
            && r2.reply == Forwarded(200) && r2.keys == [7]
            && r3.pool.db == map[7 := row.(failureCount := 2, status := Invalid)]
  {
    var row := Row("k", 1, Active, 0, 0, None, None, 0);
    var db: Table := map[7 := row];
    LoadKeysEstablishesInv(db, [7]);
    p := LoadKeys(Pool(db, map[], map[]), [7]);
    r1 := OnlyKeyFails(p, row, 2);
    r2 := OnlyKeyAnswers(r1.pool, row.(failureCount := 1), 2);
    r3 := OnlyKeyFails(r2.pool, row.(failureCount := 1), 2);
  }
}
