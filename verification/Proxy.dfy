/**
 One proxied request: select a key, send, and on failure report the key and try again with the next.

 Status updates run in the background.  The environment says what each attempt meets upstream and
 which of the updates submitted so far land before the next key is selected.
 */
module Proxy {
  import opened Wrappers
  import opened Lists
  import opened Pools
  import opened KeyProviders

  datatype Config = Config(maxRetries: int, blacklistThreshold: int)

  datatype RetryError = RetryError(statusCode: int, errorMessage: string, parsedErrorMessage: string,
                                   keyValue: string, attempt: int, upstreamAddr: string)

  /**
   What happens when an attempt is sent.  `rateLimit` holds the reset time, if any, when the failure reads
   as a rate limit.
   */
  datatype Exchange =
    | Unbuilt
    | TransportError(ignorable: bool, message: string, rateLimit: Option<Option<int>>)
    | Response(statusCode: int, body: string, parsedError: string, rateLimit: Option<Option<int>>)

  /** What the proxy makes of it: an error answer is a failure to retry, unless it is 404. */
  datatype Outcome =
    | NotBuilt
    | ClientGone
    | Answered(statusCode: int)
    | Failed(statusCode: int, errorMessage: string, parsedErrorMessage: string, rateLimit: Option<Option<int>>)

  const NOT_FOUND := 404

  datatype Attempt = Attempt(upstream: string, exchange: Exchange, landing: seq<nat>, now: int) {
    function Outcome(): Outcome {
      match exchange
      case Unbuilt => NotBuilt
      case TransportError(ignorable, message, rateLimit) =>
        if ignorable then ClientGone else Failed(500, message, "", rateLimit)
      case Response(statusCode, body, parsedError, rateLimit) =>
        if statusCode >= 400 && statusCode != NOT_FOUND then Failed(statusCode, body, parsedError, rateLimit)
        else Answered(statusCode)
    }
  }

  type Environment = nat -> Attempt

  datatype Update = FailureUpdate(id: nat) | RateLimitUpdate(id: nat, resetAt: Option<int>)

  datatype Reply =
    | UpstreamFailure(error: RetryError)
    | RetriesExceeded
    | NoKeysAvailable
    | InternalError
    | Aborted
    | Forwarded(statusCode: int)

  /** Everything a request leaves behind; `keys` are the keys selected, in order. */
  datatype Outcomes = Outcomes(pool: Pool, pending: seq<Update>, keys: seq<nat>, sent: nat,
                               retries: nat, errors: seq<RetryError>, reply: Reply)

  function Apply(p: Pool, gid: nat, cfg: Config, now: int, u: Update): Pool {
    match u
    case FailureUpdate(id) => HandleFailure(p, id, gid, cfg.blacklistThreshold)
    case RateLimitUpdate(id, resetAt) => HandleRateLimit(p, id, gid, now, resetAt)
  }

  function WithoutAt<T>(s: seq<T>, k: nat): seq<T>
    requires k < |s|
  {
    s[..k] + s[k + 1..]
  }

  /** The chosen updates run one after the other, each at most once; a position that is not pending is skipped. */
  function Land(p: Pool, gid: nat, cfg: Config, now: int, pending: seq<Update>, landing: seq<nat>): (Pool, seq<Update>)
    decreases |landing|
  {
    if landing == [] then (p, pending)
    else if landing[0] >= |pending| then Land(p, gid, cfg, now, pending, landing[1..])
    else
      var k := landing[0];
      Land(Apply(p, gid, cfg, now, pending[k]), gid, cfg, now, WithoutAt(pending, k), landing[1..])
  }

  function UpdateFor(id: nat, outcome: Outcome): Update
    requires outcome.Failed?
  {
    match outcome.rateLimit
    case None => FailureUpdate(id)
    case Some(resetAt) => RateLimitUpdate(id, resetAt)
  }

  function ErrorFor(keyValue: string, attempt: Attempt, number: nat): RetryError
    requires attempt.Outcome().Failed?
  {
    RetryError(attempt.Outcome().statusCode, attempt.Outcome().errorMessage, attempt.Outcome().parsedErrorMessage,
               keyValue, number, attempt.upstream)
  }

  /** The pool and the updates still pending after a failed attempt, before the next key is selected. */
  function AfterFailure(p: Pool, gid: nat, cfg: Config, attempt: Attempt, pending: seq<Update>): (Pool, seq<Update>)
    requires NextKey(p, gid).Some? && attempt.Outcome().Failed?
  {
    var updates := pending + [UpdateFor(NextKey(p, gid).value, attempt.Outcome())];
    Land(Select(p, gid), gid, cfg, attempt.now, updates, attempt.landing)
  }

  /** The error kept of a failed attempt: the key's text is what the selected hash showed. */
  function ErrorAfter(p: Pool, gid: nat, attempt: Attempt, number: nat): RetryError
    requires NextKey(p, gid).Some? && attempt.Outcome().Failed?
  {
    ErrorFor(Field(Details(p, NextKey(p, gid).value), KEY_STRING), attempt, number)
  }

  /** The attempt is made, and fails in a way that is retried. */
  predicate FailsAt(p: Pool, gid: nat, cfg: Config, env: Environment, retryCount: nat) {
    retryCount <= cfg.maxRetries && NextKey(p, gid).Some? && env(retryCount).Outcome().Failed?
  }

  function Request(p: Pool, gid: nat, cfg: Config, env: Environment, retryCount: nat,
                   errors: seq<RetryError>, pending: seq<Update>): Outcomes
    decreases cfg.maxRetries + 1 - retryCount
  {
    if retryCount > cfg.maxRetries then
      Outcomes(p, pending, [], 0, retryCount, errors,
               if errors != [] then UpstreamFailure(errors[|errors| - 1]) else RetriesExceeded)
    else
      match NextKey(p, gid)
      case None => Outcomes(p, pending, [], 0, retryCount, errors, NoKeysAvailable)
      case Some(id) =>
        var attempt := env(retryCount);
        var q := Select(p, gid);
        match attempt.Outcome()
        case NotBuilt => Outcomes(q, pending, [id], 0, retryCount, errors, InternalError)
        case ClientGone => Outcomes(q, pending, [id], 1, retryCount, errors, Aborted)
        case Answered(code) => Outcomes(q, pending, [id], 1, retryCount, errors, Forwarded(code))
        case Failed(_, _, _, _) =>
          var (landed, left) := AfterFailure(p, gid, cfg, attempt, pending);
          var error := ErrorAfter(p, gid, attempt, retryCount + 1);
          var rest := Request(landed, gid, cfg, env, retryCount + 1, errors + [error], left);
          rest.(keys := [id] + rest.keys, sent := rest.sent + 1)
  }

  /** What a request makes of its later attempts: one more key and one more request sent. */
  lemma RequestStep(p: Pool, gid: nat, cfg: Config, env: Environment, retryCount: nat,
                    errors: seq<RetryError>, pending: seq<Update>)
    requires FailsAt(p, gid, cfg, env, retryCount)
    ensures var (landed, left) := AfterFailure(p, gid, cfg, env(retryCount), pending);
            var error := ErrorAfter(p, gid, env(retryCount), retryCount + 1);
            var rest := Request(landed, gid, cfg, env, retryCount + 1, errors + [error], left);
            Request(p, gid, cfg, env, retryCount, errors, pending) ==
            rest.(keys := [NextKey(p, gid).value] + rest.keys, sent := rest.sent + 1)
  {
  }

  // ---------- Bounded retries and the reported error ----------

  predicate Numbered(errors: seq<RetryError>) {
    forall i :: 0 <= i < |errors| ==> errors[i].attempt == i + 1
  }

  /** At most MaxRetries+1 requests in all, and one numbered error per retry. */
  predicate Bounded(cfg: Config, retryCount: nat, r: Outcomes) {
    var limit := if cfg.maxRetries >= 0 then cfg.maxRetries + 1 else 0;
    && |r.errors| == r.retries && Numbered(r.errors) && r.retries <= limit
    && r.sent <= |r.keys| <= limit - retryCount
  }

  lemma LastAttemptIsBounded(p: Pool, gid: nat, cfg: Config, env: Environment, retryCount: nat,
                             errors: seq<RetryError>, pending: seq<Update>)
    requires |errors| == retryCount && Numbered(errors) && !FailsAt(p, gid, cfg, env, retryCount)
    requires 0 < retryCount ==> retryCount <= cfg.maxRetries + 1
    ensures Bounded(cfg, retryCount, Request(p, gid, cfg, env, retryCount, errors, pending))
  {
  }

  /** A request is sent at most MaxRetries+1 times and collects one numbered error per retry. */
  lemma {:induction false} RetriesAreBounded(p: Pool, gid: nat, cfg: Config, env: Environment, retryCount: nat,
                                             errors: seq<RetryError>, pending: seq<Update>)
    requires |errors| == retryCount && Numbered(errors)
    requires 0 < retryCount ==> retryCount <= cfg.maxRetries + 1
    ensures Bounded(cfg, retryCount, Request(p, gid, cfg, env, retryCount, errors, pending))
    decreases cfg.maxRetries + 1 - retryCount
  {
    if FailsAt(p, gid, cfg, env, retryCount) {
      var (landed, left) := AfterFailure(p, gid, cfg, env(retryCount), pending);
      var error := ErrorAfter(p, gid, env(retryCount), retryCount + 1);
      RetriesAreBounded(landed, gid, cfg, env, retryCount + 1, errors + [error], left);
      RequestStep(p, gid, cfg, env, retryCount, errors, pending);
    } else {
      LastAttemptIsBounded(p, gid, cfg, env, retryCount, errors, pending);
    }
  }

  /** What earlier attempts recorded stays. */
  lemma {:induction false} ErrorsAreKept(p: Pool, gid: nat, cfg: Config, env: Environment, retryCount: nat,
                                         errors: seq<RetryError>, pending: seq<Update>, i: nat)
    requires i < |errors|
    ensures var r := Request(p, gid, cfg, env, retryCount, errors, pending); i < |r.errors| && r.errors[i] == errors[i]
    decreases cfg.maxRetries + 1 - retryCount
  {
    if FailsAt(p, gid, cfg, env, retryCount) {
      var (landed, left) := AfterFailure(p, gid, cfg, env(retryCount), pending);
      var error := ErrorAfter(p, gid, env(retryCount), retryCount + 1);
      ErrorsAreKept(landed, gid, cfg, env, retryCount + 1, errors + [error], left, i);
    }
  }

  /** An upstream error is reported on exhaustion only, and is the last one; 404 is the only error answer forwarded. */
  predicate Reports(cfg: Config, r: Outcomes) {
    && (r.reply.UpstreamFailure? <==> cfg.maxRetries >= 0 && r.retries == cfg.maxRetries + 1)
    && (r.reply.UpstreamFailure? ==> |r.errors| == cfg.maxRetries + 1 && r.reply.error == r.errors[cfg.maxRetries])
    && (r.reply == RetriesExceeded <==> cfg.maxRetries < 0)
    && (r.reply.Forwarded? ==> r.reply.statusCode < 400 || r.reply.statusCode == NOT_FOUND)
  }

  lemma LastAttemptReports(p: Pool, gid: nat, cfg: Config, env: Environment, retryCount: nat,
                           errors: seq<RetryError>, pending: seq<Update>)
    requires |errors| == retryCount && (0 < retryCount ==> retryCount <= cfg.maxRetries + 1)
    requires !FailsAt(p, gid, cfg, env, retryCount)
    ensures Reports(cfg, Request(p, gid, cfg, env, retryCount, errors, pending))
  {
  }

  /**
   A request reports an upstream error exactly when it runs out of retries; what it forwards is no error
   answer, except 404.
   */
  lemma {:induction false} ReportedError(p: Pool, gid: nat, cfg: Config, env: Environment, retryCount: nat,
                                         errors: seq<RetryError>, pending: seq<Update>)
    requires |errors| == retryCount && (0 < retryCount ==> retryCount <= cfg.maxRetries + 1)
    ensures Reports(cfg, Request(p, gid, cfg, env, retryCount, errors, pending))
    decreases cfg.maxRetries + 1 - retryCount
  {
    if FailsAt(p, gid, cfg, env, retryCount) {
      var (landed, left) := AfterFailure(p, gid, cfg, env(retryCount), pending);
      var error := ErrorAfter(p, gid, env(retryCount), retryCount + 1);
      ReportedError(landed, gid, cfg, env, retryCount + 1, errors + [error], left);
      RequestStep(p, gid, cfg, env, retryCount, errors, pending);
    } else {
      LastAttemptReports(p, gid, cfg, env, retryCount, errors, pending);
    }
  }

  // ---------- Every attempt judged by its exchange ----------

  /** The exchange is a failure that is tried again: a transport error, or an error answer other than 404. */
  predicate Retried(e: Exchange) {
    match e
    case Unbuilt => false
    case TransportError(ignorable, _, _) => !ignorable
    case Response(statusCode, _, _, _) => statusCode >= 400 && statusCode != 404
  }

  /** The error kept of the attempt: a transport error counts as status 500, an error answer as its own status. */
  predicate Records(error: RetryError, attempt: Attempt, number: nat) {
    && error.attempt == number && error.upstreamAddr == attempt.upstream
    && match attempt.exchange
       case Unbuilt => false
       case TransportError(_, message, _) =>
         error.statusCode == 500 && error.errorMessage == message && error.parsedErrorMessage == ""
       case Response(statusCode, body, parsedError, _) =>
         error.statusCode == statusCode && error.errorMessage == body && error.parsedErrorMessage == parsedError
  }

  /** What the client gets for an exchange that is not tried again. */
  predicate Concludes(e: Exchange, reply: Reply) {
    match e
    case Unbuilt => reply == InternalError
    case TransportError(_, _, _) => reply == Aborted
    case Response(statusCode, _, _, _) => reply == Forwarded(statusCode)
  }

  predicate FailedAsRecorded(env: Environment, errors: seq<RetryError>, i: nat)
    requires i < |errors|
  {
    Retried(env(i).exchange) && Records(errors[i], env(i), i + 1)
  }

  /**
   Every attempt but the last met a failure that is tried again, and left an error that tells it.  With one
   key more than failures the last exchange concludes the request; otherwise no attempt was left, or no key.
   */
  predicate Judged(cfg: Config, env: Environment, retryCount: nat, r: Outcomes) {
    && retryCount <= r.retries <= |r.errors|
    && (forall i :: retryCount <= i < r.retries ==> FailedAsRecorded(env, r.errors, i))
    && r.sent == |r.keys| - (if r.reply == InternalError then 1 else 0)
    && if |r.keys| > r.retries - retryCount then
         && |r.keys| == r.retries - retryCount + 1 && r.retries <= cfg.maxRetries
         && !Retried(env(r.retries).exchange) && Concludes(env(r.retries).exchange, r.reply)
       else
         && |r.keys| == r.retries - retryCount
         && (if r.retries <= cfg.maxRetries then r.reply == NoKeysAvailable
             else r.reply == if r.errors == [] then RetriesExceeded else UpstreamFailure(r.errors[|r.errors| - 1]))
  }

  lemma FailureIsRetried(attempt: Attempt)
    ensures attempt.Outcome().Failed? <==> Retried(attempt.exchange)
  {
  }

  lemma FailureIsRecorded(p: Pool, gid: nat, attempt: Attempt, number: nat)
    requires NextKey(p, gid).Some? && attempt.Outcome().Failed?
    ensures Records(ErrorAfter(p, gid, attempt, number), attempt, number)
  {
  }

  lemma LastAttemptIsJudged(p: Pool, gid: nat, cfg: Config, env: Environment, retryCount: nat,
                            errors: seq<RetryError>, pending: seq<Update>)
    requires |errors| == retryCount && !FailsAt(p, gid, cfg, env, retryCount)
    ensures Judged(cfg, env, retryCount, Request(p, gid, cfg, env, retryCount, errors, pending))
  {
  }

  lemma JudgedWithOneMore(cfg: Config, env: Environment, retryCount: nat, rest: Outcomes, id: nat)
    requires Judged(cfg, env, retryCount + 1, rest) && FailedAsRecorded(env, rest.errors, retryCount)
    ensures Judged(cfg, env, retryCount, rest.(keys := [id] + rest.keys, sent := rest.sent + 1))
  {
  }

  /** What a request retries, records and answers follows from what its attempts met, and from nothing else. */
  lemma {:induction false} EveryAttemptIsJudged(p: Pool, gid: nat, cfg: Config, env: Environment, retryCount: nat,
                                                errors: seq<RetryError>, pending: seq<Update>)
    requires |errors| == retryCount
    ensures Judged(cfg, env, retryCount, Request(p, gid, cfg, env, retryCount, errors, pending))
    decreases cfg.maxRetries + 1 - retryCount
  {
    if FailsAt(p, gid, cfg, env, retryCount) {
      var (landed, left) := AfterFailure(p, gid, cfg, env(retryCount), pending);
      var error := ErrorAfter(p, gid, env(retryCount), retryCount + 1);
      EveryAttemptIsJudged(landed, gid, cfg, env, retryCount + 1, errors + [error], left);
      ErrorsAreKept(landed, gid, cfg, env, retryCount + 1, errors + [error], left, retryCount);
      FailureIsRetried(env(retryCount));
      FailureIsRecorded(p, gid, env(retryCount), retryCount + 1);
      var rest := Request(landed, gid, cfg, env, retryCount + 1, errors + [error], left);
      JudgedWithOneMore(cfg, env, retryCount, rest, NextKey(p, gid).value);
      RequestStep(p, gid, cfg, env, retryCount, errors, pending);
    } else {
      LastAttemptIsJudged(p, gid, cfg, env, retryCount, errors, pending);
    }
  }

  // ---------- The pool stays in agreement ----------

  predicate UpdatesOfGroup(p: Pool, gid: nat, pending: seq<Update>) {
    forall u :: u in pending ==> u.id in p.db && p.db[u.id].groupId == gid
  }

  /** The same keys, with the same texts and groups, whatever became of their counts and statuses. */
  predicate SameKeys(p: Pool, q: Pool) {
    && q.db.Keys == p.db.Keys
    && forall id :: id in p.db ==> q.db[id].groupId == p.db[id].groupId && q.db[id].keyValue == p.db[id].keyValue
  }

  lemma ApplyKeepsInv(p: Pool, gid: nat, cfg: Config, now: int, u: Update)
    requires Inv(p) && u.id in p.db && p.db[u.id].groupId == gid
    ensures Inv(Apply(p, gid, cfg, now, u)) && SameKeys(p, Apply(p, gid, cfg, now, u))
  {
    match u
    case FailureUpdate(id) => FailureKeepsInv(p, id, gid, cfg.blacklistThreshold);
    case RateLimitUpdate(id, resetAt) => RateLimitKeepsInv(p, id, gid, now, resetAt);
  }

  lemma {:induction false} LandKeepsInv(p: Pool, gid: nat, cfg: Config, now: int, pending: seq<Update>,
                                        landing: seq<nat>)
    requires Inv(p) && UpdatesOfGroup(p, gid, pending)
    ensures var (q, rest) := Land(p, gid, cfg, now, pending, landing);
            Inv(q) && SameKeys(p, q) && UpdatesOfGroup(q, gid, rest)
    decreases |landing|
  {
    if landing != [] && landing[0] >= |pending| {
      LandKeepsInv(p, gid, cfg, now, pending, landing[1..]);
    } else if landing != [] {
      var k := landing[0];
      ApplyKeepsInv(p, gid, cfg, now, pending[k]);
      LandKeepsInv(Apply(p, gid, cfg, now, pending[k]), gid, cfg, now, WithoutAt(pending, k), landing[1..]);
    }
  }

  lemma SelectKeepsKeys(p: Pool, gid: nat, pending: seq<Update>)
    requires Inv(p) && UpdatesOfGroup(p, gid, pending)
    ensures Inv(Select(p, gid)) && SameKeys(p, Select(p, gid)) && UpdatesOfGroup(Select(p, gid), gid, pending)
    ensures NextKey(p, gid).Some? ==>
              var id := NextKey(p, gid).value;
              && id in p.db && p.db[id].groupId == gid && Field(Details(p, id), KEY_STRING) == p.db[id].keyValue
  {
    SelectKeepsInv(p, gid);
    if NextKey(p, gid).Some? {
      SelectedKeyIsActive(p, gid);
    }
  }

  lemma FailureKeepsKeys(p: Pool, gid: nat, cfg: Config, attempt: Attempt, pending: seq<Update>)
    requires Inv(p) && UpdatesOfGroup(p, gid, pending) && NextKey(p, gid).Some? && attempt.Outcome().Failed?
    ensures var (q, rest) := AfterFailure(p, gid, cfg, attempt, pending);
            Inv(q) && SameKeys(p, q) && UpdatesOfGroup(q, gid, rest)
  {
    SelectKeepsKeys(p, gid, pending);
    var updates := pending + [UpdateFor(NextKey(p, gid).value, attempt.Outcome())];
    LandKeepsInv(Select(p, gid), gid, cfg, attempt.now, updates, attempt.landing);
  }

  /**
   However its updates land, a request leaves table, hashes and lists in agreement, and the updates still
   pending concern keys of the group.
   */
  lemma {:induction false} RequestKeepsInv(p: Pool, gid: nat, cfg: Config, env: Environment, retryCount: nat,
                                           errors: seq<RetryError>, pending: seq<Update>)
    requires Inv(p) && UpdatesOfGroup(p, gid, pending)
    ensures var r := Request(p, gid, cfg, env, retryCount, errors, pending);
            Inv(r.pool) && SameKeys(p, r.pool) && UpdatesOfGroup(r.pool, gid, r.pending)
    decreases cfg.maxRetries + 1 - retryCount
  {
    SelectKeepsKeys(p, gid, pending);
    if FailsAt(p, gid, cfg, env, retryCount) {
      FailureKeepsKeys(p, gid, cfg, env(retryCount), pending);
      var (landed, left) := AfterFailure(p, gid, cfg, env(retryCount), pending);
      var error := ErrorAfter(p, gid, env(retryCount), retryCount + 1);
      RequestKeepsInv(landed, gid, cfg, env, retryCount + 1, errors + [error], left);
      RequestStep(p, gid, cfg, env, retryCount, errors, pending);
    }
  }

  /** Error i is what attempt i met upstream, with the text of the k-th key used. */
  predicate Tells(p: Pool, env: Environment, r: Outcomes, i: nat, k: nat) {
    && i < |r.errors| && env(i).Outcome().Failed? && k < |r.keys| && r.keys[k] in p.db
    && r.errors[i] == ErrorFor(p.db[r.keys[k]].keyValue, env(i), i + 1)
  }

  lemma FirstErrorTells(p: Pool, gid: nat, cfg: Config, env: Environment, retryCount: nat,
                        errors: seq<RetryError>, pending: seq<Update>)
    requires Inv(p) && UpdatesOfGroup(p, gid, pending)
    requires FailsAt(p, gid, cfg, env, retryCount) && |errors| == retryCount
    ensures Tells(p, env, Request(p, gid, cfg, env, retryCount, errors, pending), retryCount, 0)
  {
    var (landed, left) := AfterFailure(p, gid, cfg, env(retryCount), pending);
    var error := ErrorAfter(p, gid, env(retryCount), retryCount + 1);
    SelectKeepsKeys(p, gid, pending);
    ErrorsAreKept(landed, gid, cfg, env, retryCount + 1, errors + [error], left, retryCount);
    RequestStep(p, gid, cfg, env, retryCount, errors, pending);
  }

  lemma LaterErrorTells(p: Pool, q: Pool, env: Environment, r: Outcomes, id: nat, i: nat, k: nat)
    requires SameKeys(p, q) && Tells(q, env, r, i, k)
    ensures Tells(p, env, r.(keys := [id] + r.keys, sent := r.sent + 1), i, k + 1)
  {
  }

  // More errors than at the start mean that the first attempt failed.
  lemma MoreErrorsNeedAFailure(p: Pool, gid: nat, cfg: Config, env: Environment, retryCount: nat,
                               errors: seq<RetryError>, pending: seq<Update>)
    requires |errors| < |Request(p, gid, cfg, env, retryCount, errors, pending).errors|
    ensures FailsAt(p, gid, cfg, env, retryCount)
  {
  }

  /** Each error kept is what its attempt met upstream, with the text of the key the attempt used. */
  lemma {:induction false} ErrorsTellTheAttempts(p: Pool, gid: nat, cfg: Config, env: Environment, retryCount: nat,
                                                 errors: seq<RetryError>, pending: seq<Update>, i: nat, k: nat)
    requires Inv(p) && UpdatesOfGroup(p, gid, pending) && |errors| == retryCount && i == retryCount + k
    requires i < |Request(p, gid, cfg, env, retryCount, errors, pending).errors|
    ensures Tells(p, env, Request(p, gid, cfg, env, retryCount, errors, pending), i, k)
    decreases k
  {
    MoreErrorsNeedAFailure(p, gid, cfg, env, retryCount, errors, pending);
    if k == 0 {
      FirstErrorTells(p, gid, cfg, env, retryCount, errors, pending);
    } else {
      FailureKeepsKeys(p, gid, cfg, env(retryCount), pending);
      var (landed, left) := AfterFailure(p, gid, cfg, env(retryCount), pending);
      var error := ErrorAfter(p, gid, env(retryCount), retryCount + 1);
      RequestStep(p, gid, cfg, env, retryCount, errors, pending);
      ErrorsTellTheAttempts(landed, gid, cfg, env, retryCount + 1, errors + [error], left, i, k - 1);
      var rest := Request(landed, gid, cfg, env, retryCount + 1, errors + [error], left);
      LaterErrorTells(p, landed, env, rest, NextKey(p, gid).value, i, k - 1);
    }
  }

  /** On exhaustion the request reports what its last attempt met, with the text of the last key it used. */
  lemma ReportsTheLastAttempt(p: Pool, gid: nat, cfg: Config, env: Environment)
    requires Inv(p) && Request(p, gid, cfg, env, 0, [], []).reply.UpstreamFailure?
    ensures var r := Request(p, gid, cfg, env, 0, [], []); var last := cfg.maxRetries;
            && 0 <= last < |r.keys| && r.keys[last] in p.db && env(last).Outcome().Failed?
            && r.reply.error == ErrorFor(p.db[r.keys[last]].keyValue, env(last), last + 1)
  {
    ReportedError(p, gid, cfg, env, 0, [], []);
    ErrorsTellTheAttempts(p, gid, cfg, env, 0, [], [], cfg.maxRetries, cfg.maxRetries);
  }

  // ---------- A request only adds failures ----------

  /** No failure of key `id` is forgotten, and an invalid key stays invalid. */
  predicate Unforgiven(p: Pool, q: Pool, id: nat)
    requires id in p.db
  {
    && id in q.db && q.db[id].failureCount >= p.db[id].failureCount
    && (p.db[id].status == Invalid ==> q.db[id].status == Invalid)
  }

  lemma ApplyNeverForgives(p: Pool, gid: nat, cfg: Config, now: int, u: Update, id: nat)
    requires Inv(p) && id in p.db && u.id in p.db && p.db[u.id].groupId == gid
    ensures Unforgiven(p, Apply(p, gid, cfg, now, u), id)
  {
    match u
    case FailureUpdate(k) => FailureKeepsInv(p, k, gid, cfg.blacklistThreshold);
    case RateLimitUpdate(k, resetAt) => RateLimitKeepsInv(p, k, gid, now, resetAt);
  }

  lemma {:induction false} LandNeverForgives(p: Pool, gid: nat, cfg: Config, now: int, pending: seq<Update>,
                                             landing: seq<nat>, id: nat)
    requires Inv(p) && UpdatesOfGroup(p, gid, pending) && id in p.db
    ensures Unforgiven(p, Land(p, gid, cfg, now, pending, landing).0, id)
    decreases |landing|
  {
    if landing != [] && landing[0] >= |pending| {
      LandNeverForgives(p, gid, cfg, now, pending, landing[1..], id);
    } else if landing != [] {
      var k := landing[0];
      ApplyKeepsInv(p, gid, cfg, now, pending[k]);
      ApplyNeverForgives(p, gid, cfg, now, pending[k], id);
      LandNeverForgives(Apply(p, gid, cfg, now, pending[k]), gid, cfg, now, WithoutAt(pending, k), landing[1..], id);
    }
  }

  lemma FailureNeverForgives(p: Pool, gid: nat, cfg: Config, attempt: Attempt, pending: seq<Update>, id: nat)
    requires Inv(p) && UpdatesOfGroup(p, gid, pending) && id in p.db
    requires NextKey(p, gid).Some? && attempt.Outcome().Failed?
    ensures Unforgiven(p, AfterFailure(p, gid, cfg, attempt, pending).0, id)
  {
    SelectKeepsKeys(p, gid, pending);
    var updates := pending + [UpdateFor(NextKey(p, gid).value, attempt.Outcome())];
    LandNeverForgives(Select(p, gid), gid, cfg, attempt.now, updates, attempt.landing, id);
  }

  /** No request, not even an answered one, takes back a failure or revives a key. */
  lemma {:induction false} RequestNeverForgives(p: Pool, gid: nat, cfg: Config, env: Environment, retryCount: nat,
                                                errors: seq<RetryError>, pending: seq<Update>, id: nat)
    requires Inv(p) && UpdatesOfGroup(p, gid, pending) && id in p.db
    ensures Unforgiven(p, Request(p, gid, cfg, env, retryCount, errors, pending).pool, id)
    decreases cfg.maxRetries + 1 - retryCount
  {
    if FailsAt(p, gid, cfg, env, retryCount) {
      FailureKeepsKeys(p, gid, cfg, env(retryCount), pending);
      FailureNeverForgives(p, gid, cfg, env(retryCount), pending, id);
      var (landed, left) := AfterFailure(p, gid, cfg, env(retryCount), pending);
      var error := ErrorAfter(p, gid, env(retryCount), retryCount + 1);
      RequestNeverForgives(landed, gid, cfg, env, retryCount + 1, errors + [error], left, id);
      RequestStep(p, gid, cfg, env, retryCount, errors, pending);
    }
  }

  /** The updates that land after the reply keep the agreement and forgive nothing either. */
  lemma LateUpdates(p: Pool, gid: nat, cfg: Config, env: Environment, now: int, landing: seq<nat>)
    requires Inv(p)
    ensures var r := Request(p, gid, cfg, env, 0, [], []); var q := Land(r.pool, gid, cfg, now, r.pending, landing).0;
            Inv(q) && forall id :: id in p.db ==> Unforgiven(p, q, id)
  {
    var r := Request(p, gid, cfg, env, 0, [], []);
    RequestKeepsInv(p, gid, cfg, env, 0, [], []);
    LandKeepsInv(r.pool, gid, cfg, now, r.pending, landing);
    forall id | id in p.db ensures Unforgiven(p, Land(r.pool, gid, cfg, now, r.pending, landing).0, id) {
      RequestNeverForgives(p, gid, cfg, env, 0, [], [], id);
      LandNeverForgives(r.pool, gid, cfg, now, r.pending, landing, id);
    }
  }

  // ---------- Retries use different keys ----------

  /** The list ends with the first m of the keys it started from: those not selected yet. */
  predicate EndsWith(list: seq<nat>, keys: seq<nat>, m: nat) {
    m <= |list| && m <= |keys| && forall i :: 0 <= i < m ==> list[|list| - m + i] == keys[i]
  }

  /** None of the updates concerns one of the first m keys. */
  predicate Spares(pending: seq<Update>, keys: seq<nat>, m: nat)
    requires m <= |keys|
  {
    forall j, i :: 0 <= j < |pending| && 0 <= i < m ==> pending[j].id != keys[i]
  }

  lemma DelistedSuffix(list: seq<nat>, id: nat, keys: seq<nat>, m: nat)
    requires EndsWith(list, keys, m) && forall i :: 0 <= i < m ==> keys[i] != id
    ensures EndsWith(Without(list, id), keys, m)
  {
    var front, suffix := list[..|list| - m], list[|list| - m..];
    assert list == front + suffix;
    assert forall i :: 0 <= i < m ==> suffix[i] == keys[i];
    WithoutAppend(front, suffix, id);
    WithoutAbsent(suffix, id);
  }

  lemma ApplyKeepsSuffix(p: Pool, gid: nat, cfg: Config, now: int, u: Update, keys: seq<nat>, m: nat)
    requires EndsWith(Listed(p, gid), keys, m) && NoDuplicates(Listed(p, gid))
    requires forall i :: 0 <= i < m ==> keys[i] != u.id
    ensures var q := Apply(p, gid, cfg, now, u);
            EndsWith(Listed(q, gid), keys, m) && NoDuplicates(Listed(q, gid))
  {
    var list, q := Listed(p, gid), Apply(p, gid, cfg, now, u);
    DelistedSuffix(list, u.id, keys, m);
    WithoutMembers(list, u.id);
    assert Listed(q, gid) == list || Listed(q, gid) == Without(list, u.id);
  }

  lemma {:induction false} LandKeepsSuffix(p: Pool, gid: nat, cfg: Config, now: int, pending: seq<Update>,
                                           landing: seq<nat>, keys: seq<nat>, m: nat)
    requires EndsWith(Listed(p, gid), keys, m) && NoDuplicates(Listed(p, gid)) && Spares(pending, keys, m)
    ensures var (q, rest) := Land(p, gid, cfg, now, pending, landing);
            EndsWith(Listed(q, gid), keys, m) && NoDuplicates(Listed(q, gid)) && Spares(rest, keys, m)
    decreases |landing|
  {
    if landing != [] && landing[0] >= |pending| {
      LandKeepsSuffix(p, gid, cfg, now, pending, landing[1..], keys, m);
    } else if landing != [] {
      var k := landing[0];
      ApplyKeepsSuffix(p, gid, cfg, now, pending[k], keys, m);
      LandKeepsSuffix(Apply(p, gid, cfg, now, pending[k]), gid, cfg, now, WithoutAt(pending, k), landing[1..], keys, m);
    }
  }

  lemma RotatedSuffix(list: seq<nat>, keys: seq<nat>, m: nat)
    requires 0 < m && EndsWith(list, keys, m) && NoDuplicates(list)
    ensures list[|list| - 1] == keys[m - 1]
    ensures EndsWith(Rotated(list), keys, m - 1)
    ensures forall i :: 0 <= i < m - 1 ==> keys[i] != keys[m - 1]
  {
    var n := |list|;
    assert list[n - m + (m - 1)] == keys[m - 1];
    forall i | 0 <= i < m - 1 ensures keys[i] != keys[m - 1] && Rotated(list)[n - (m - 1) + i] == keys[i] {
      assert list[n - m + i] == keys[i];
    }
  }

  lemma SelectLeavesSuffix(p: Pool, gid: nat, keys: seq<nat>, m: nat)
    requires 0 < m && EndsWith(Listed(p, gid), keys, m) && NoDuplicates(Listed(p, gid))
    ensures NextKey(p, gid) == Some(keys[m - 1])
    ensures EndsWith(Listed(Select(p, gid), gid), keys, m - 1) && NoDuplicates(Listed(Select(p, gid), gid))
    ensures forall i :: 0 <= i < m - 1 ==> keys[i] != keys[m - 1]
  {
    RotatedMembers(Listed(p, gid));
    RotatedSuffix(Listed(p, gid), keys, m);
  }

  // One failed attempt while an untried key is left.
  lemma FailedAttempt(p: Pool, gid: nat, cfg: Config, attempt: Attempt, pending: seq<Update>, keys: seq<nat>, m: nat)
    requires 0 < m && EndsWith(Listed(p, gid), keys, m) && NoDuplicates(Listed(p, gid)) && Spares(pending, keys, m)
    requires attempt.Outcome().Failed?
    ensures NextKey(p, gid) == Some(keys[m - 1])
    ensures var (q, rest) := AfterFailure(p, gid, cfg, attempt, pending);
            EndsWith(Listed(q, gid), keys, m - 1) && NoDuplicates(Listed(q, gid)) && Spares(rest, keys, m - 1)
  {
    SelectLeavesSuffix(p, gid, keys, m);
    LandKeepsSuffix(Select(p, gid), gid, cfg, attempt.now,
                    pending + [UpdateFor(keys[m - 1], attempt.Outcome())], attempt.landing, keys, m - 1);
  }

  /**
   While keys are left that this request has not selected, it selects them in list order, from the
   back: landing updates may shorten the list, but only in front of them.
   */
  lemma {:induction false} KeysFollowTheList(p: Pool, gid: nat, cfg: Config, env: Environment, retryCount: nat,
                                             errors: seq<RetryError>, pending: seq<Update>,
                                             keys: seq<nat>, m: nat, i: nat)
    requires EndsWith(Listed(p, gid), keys, m) && NoDuplicates(Listed(p, gid)) && Spares(pending, keys, m)
    requires i < m
    ensures var tried := Request(p, gid, cfg, env, retryCount, errors, pending).keys;
            i < |tried| ==> tried[i] == keys[m - 1 - i]
    decreases i
  {
    FirstKey(p, gid, cfg, env, retryCount, errors, pending);
    if i == 0 || !FailsAt(p, gid, cfg, env, retryCount) {
      SelectLeavesSuffix(p, gid, keys, m);
    } else {
      FailedAttempt(p, gid, cfg, env(retryCount), pending, keys, m);
      var (landed, left) := AfterFailure(p, gid, cfg, env(retryCount), pending);
      var error := ErrorAfter(p, gid, env(retryCount), retryCount + 1);
      KeysFollowTheList(landed, gid, cfg, env, retryCount + 1, errors + [error], left, keys, m - 1, i - 1);
      RequestStep(p, gid, cfg, env, retryCount, errors, pending);
    }
  }

  // A second key is only selected after a failed attempt with the first.
  lemma FirstKey(p: Pool, gid: nat, cfg: Config, env: Environment, retryCount: nat,
                 errors: seq<RetryError>, pending: seq<Update>)
    ensures var tried := Request(p, gid, cfg, env, retryCount, errors, pending).keys;
            && (|tried| > 0 ==> NextKey(p, gid) == Some(tried[0]))
            && (|tried| > 1 ==> FailsAt(p, gid, cfg, env, retryCount))
  {
  }

  /** From one attempt on, every attempt fails. */
  ghost predicate KeepsFailing(env: Environment, retryCount: nat) {
    forall k: nat :: retryCount <= k ==> env(k).Outcome().Failed?
  }

  /** With an untried key for every attempt left, only the retry limit ends a request that keeps failing. */
  lemma {:induction false} FailingRequestUsesEveryAttempt(p: Pool, gid: nat, cfg: Config, env: Environment,
                                                          retryCount: nat, errors: seq<RetryError>,
                                                          pending: seq<Update>, keys: seq<nat>, m: nat)
    requires EndsWith(Listed(p, gid), keys, m) && NoDuplicates(Listed(p, gid)) && Spares(pending, keys, m)
    requires retryCount <= cfg.maxRetries + 1 <= retryCount + m && KeepsFailing(env, retryCount)
    ensures var r := Request(p, gid, cfg, env, retryCount, errors, pending);
            |r.keys| == r.sent == cfg.maxRetries + 1 - retryCount && r.retries == cfg.maxRetries + 1
    decreases cfg.maxRetries + 1 - retryCount
  {
    if retryCount <= cfg.maxRetries {
      FailedAttempt(p, gid, cfg, env(retryCount), pending, keys, m);
      var (landed, left) := AfterFailure(p, gid, cfg, env(retryCount), pending);
      var error := ErrorAfter(p, gid, env(retryCount), retryCount + 1);
      FailingRequestUsesEveryAttempt(landed, gid, cfg, env, retryCount + 1, errors + [error], left, keys, m - 1);
      RequestStep(p, gid, cfg, env, retryCount, errors, pending);
    }
  }

  lemma NothingTriedYet(p: Pool, gid: nat)
    requires Inv(p)
    ensures var list := Listed(p, gid); EndsWith(list, list, |list|) && NoDuplicates(list) && Spares([], list, |list|)
  {
  }

  /**
   A single request in isolation never tries the same key twice while another active key is untried:
   with m active keys, its first m attempts use pairwise distinct ones, all active when it started.
   */
  lemma AttemptsUseDistinctKeys(p: Pool, gid: nat, cfg: Config, env: Environment, i: nat, j: nat)
    requires Inv(p)
    requires i < j < |Request(p, gid, cfg, env, 0, [], []).keys| && j < |Listed(p, gid)|
    ensures var keys := Request(p, gid, cfg, env, 0, [], []).keys;
            && keys[i] != keys[j]
            && keys[i] in p.db && p.db[keys[i]].groupId == gid && p.db[keys[i]].status == Active
  {
    var list, m := Listed(p, gid), |Listed(p, gid)|;
    NothingTriedYet(p, gid);
    KeysFollowTheList(p, gid, cfg, env, 0, [], [], list, m, i);
    KeysFollowTheList(p, gid, cfg, env, 0, [], [], list, m, j);
    assert list[m - 1 - i] in list;
    assert Agrees(p, list[m - 1 - i]);
  }

  lemma KeysInListOrder(p: Pool, gid: nat, cfg: Config, env: Environment)
    requires Inv(p) && |Request(p, gid, cfg, env, 0, [], []).keys| <= |Listed(p, gid)|
    ensures var keys := Request(p, gid, cfg, env, 0, [], []).keys; var list := Listed(p, gid);
            forall i :: 0 <= i < |keys| ==> keys[i] == list[|list| - 1 - i]
  {
    var list, keys := Listed(p, gid), Request(p, gid, cfg, env, 0, [], []).keys;
    NothingTriedYet(p, gid);
    forall i | 0 <= i < |keys| ensures keys[i] == list[|list| - 1 - i] {
      KeysFollowTheList(p, gid, cfg, env, 0, [], [], list, |list|, i);
    }
  }

  /**
   When every attempt fails and there are enough active keys, the request sends MaxRetries+1 times,
   each time with another key, and reports what the last attempt met.
   */
  lemma ExhaustedRequest(p: Pool, gid: nat, cfg: Config, env: Environment)
    requires Inv(p) && 0 <= cfg.maxRetries < |Listed(p, gid)| && KeepsFailing(env, 0)
    ensures var r := Request(p, gid, cfg, env, 0, [], []); var list := Listed(p, gid); var last := cfg.maxRetries;
            && |r.keys| == r.sent == |r.errors| == last + 1
            && (forall i :: 0 <= i < |r.keys| ==> r.keys[i] == list[|list| - 1 - i])
            && r.keys[last] in p.db && env(last).Outcome().Failed?
            && r.reply == UpstreamFailure(ErrorFor(p.db[r.keys[last]].keyValue, env(last), last + 1))
  {
    NothingTriedYet(p, gid);
    FailingRequestUsesEveryAttempt(p, gid, cfg, env, 0, [], [], Listed(p, gid), |Listed(p, gid)|);
    ReportedError(p, gid, cfg, env, 0, [], []);
    ReportsTheLastAttempt(p, gid, cfg, env);
    KeysInListOrder(p, gid, cfg, env);
  }

  // ---------- The server ----------

  class ProxyServer {
    const keyProvider: KeyProvider

    constructor (keyProvider: KeyProvider)
      ensures this.keyProvider == keyProvider
    {
      this.keyProvider := keyProvider;
    }

    method LandUpdates(gid: nat, cfg: Config, now: int, pending: seq<Update>, landing: seq<nat>)
      returns (rest: seq<Update>)
      requires keyProvider.Valid()
      modifies keyProvider, keyProvider.store
      ensures keyProvider.Valid()
      ensures (keyProvider.Abs(), rest) == Land(old(keyProvider.Abs()), gid, cfg, now, pending, landing)
      decreases |landing|
    {
      if landing == [] {
        return pending;
      }
      var k := landing[0];
      if k >= |pending| {
        rest := LandUpdates(gid, cfg, now, pending, landing[1..]);
        return;
      }
      match pending[k] {
        case FailureUpdate(id) => keyProvider.HandleFailure(id, gid, cfg.blacklistThreshold);
        case RateLimitUpdate(id, resetAt) => keyProvider.HandleRateLimit(id, gid, now, resetAt);
      }
      rest := LandUpdates(gid, cfg, now, WithoutAt(pending, k), landing[1..]);
    }

    method ExecuteRequestWithRetry(gid: nat, cfg: Config, env: Environment, retryCount: nat,
                                   retryErrors: seq<RetryError>, pending: seq<Update>)
      returns (keys: seq<nat>, sent: nat, retries: nat, errors: seq<RetryError>, rest: seq<Update>, reply: Reply)
      requires keyProvider.Valid()
      modifies keyProvider, keyProvider.store
      ensures keyProvider.Valid()
      ensures Outcomes(keyProvider.Abs(), rest, keys, sent, retries, errors, reply) ==
              Request(old(keyProvider.Abs()), gid, cfg, env, retryCount, retryErrors, pending)
      ensures |retryErrors| == retryCount ==>
                Judged(cfg, env, retryCount, Outcomes(keyProvider.Abs(), rest, keys, sent, retries, errors, reply))
      decreases cfg.maxRetries + 1 - retryCount
    {
      if |retryErrors| == retryCount {
        EveryAttemptIsJudged(keyProvider.Abs(), gid, cfg, env, retryCount, retryErrors, pending);
      }
      keys, sent, retries, errors, rest := [], 0, retryCount, retryErrors, pending;
      if retryCount > cfg.maxRetries {
        if |retryErrors| > 0 {
          reply := UpstreamFailure(retryErrors[|retryErrors| - 1]);
        } else {
          reply := RetriesExceeded;
        }
        return;
      }
      var selected := keyProvider.SelectKey(gid);
      if !selected.Selected? {
        reply := NoKeysAvailable;
        return;
      }
      var apiKey := selected.key;
      keys := [apiKey.id];
      var attempt := env(retryCount);
      match attempt.Outcome()
      case NotBuilt =>
        reply := InternalError;
      case ClientGone =>
        sent, reply := 1, Aborted;
      case Answered(code) =>
        sent, reply := 1, Forwarded(code);
      case Failed(_, _, _, _) =>
        var updates := pending + [UpdateFor(apiKey.id, attempt.Outcome())];
        rest := LandUpdates(gid, cfg, attempt.now, updates, attempt.landing);
        var error := ErrorFor(apiKey.keyValue, attempt, retryCount + 1);
        var laterKeys, laterSent;
        laterKeys, laterSent, retries, errors, rest, reply :=
          ExecuteRequestWithRetry(gid, cfg, env, retryCount + 1, retryErrors + [error], rest);
        keys, sent := keys + laterKeys, laterSent + 1;
    }
  }
}
