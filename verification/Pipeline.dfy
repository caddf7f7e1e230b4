/** The production checkers (src/checks/sqlx.rs, src/checks/redis.rs) under the
    registry's deadline (src/registry.rs) and up to the HTTP code (src/axum.rs). */
module Pipeline {
  import opened Types
  import opened Checks

  /** Thresholds of a checker: its own probe timeout (zero does not disable it)
      and the latency above which a success counts as degraded. */
  datatype Limits = Limits(timeout: nat, warnAbove: nat)

  function SqlxCheck(limits: Limits, query: Future<Result<(), string>>): (r: Probe)
    ensures r.Ready? && r.at <= limits.timeout
  {
    var probe: Future<Option<Result<(), string>>> := Timeout(limits.timeout, query);
    var outcome: Outcome :=
      match probe.value
      case Some(Ok(_)) => Result.Ok(if probe.at > limits.warnAbove then Degraded else Healthy)
      case Some(Err(e)) => Err(DependencyUnavailable("database probe failed: " + e))
      case None => Err(CheckTimedOut(limits.timeout));
    Ready(probe.at, outcome)
  }

  /** What the blocking PING task comes back with. */
  datatype PingOutcome = Reply(text: string) | RedisError(detail: string) | TaskFailed(detail: string)

  function RedisCheck(limits: Limits, ping: Future<PingOutcome>): (r: Probe)
    ensures r.Ready? && r.at <= limits.timeout
  {
    var probe: Future<Option<PingOutcome>> := Timeout(limits.timeout, ping);
    var outcome: Outcome :=
      match probe.value
      case Some(Reply(text)) =>
        if text != "PONG" then Err(DependencyUnavailable("unexpected PING reply: " + text))
        else Result.Ok(if probe.at > limits.warnAbove then Degraded else Healthy)
      case Some(RedisError(e)) => Err(DependencyUnavailable("redis probe failed: " + e))
      case Some(TaskFailed(e)) => Err(CheckFailed("redis probe task failed: " + e))
      case None => Err(CheckTimedOut(limits.timeout));
    Ready(probe.at, outcome)
  }

  /** The deadline that acts first. */
  function Effective(limits: Limits, deadline: nat): nat {
    if deadline == 0 || limits.timeout <= deadline then limits.timeout else deadline
  }

  /** A probe that answers what the checker wants to see, after `latency`. */
  predicate Answers<T>(f: Future<T>, good: T -> bool, latency: nat) {
    f.Ready? && f.at == latency && good(f.value)
  }

  predicate QueryOk(r: Result<(), string>) {
    r.Ok?
  }

  predicate PongReply(p: PingOutcome) {
    p == Reply("PONG")
  }

  ghost predicate HealthySqlx(query: Future<Result<(), string>>, latency: nat) {
    Answers(query, QueryOk, latency)
  }

  ghost predicate HealthyRedis(ping: Future<PingOutcome>, latency: nat) {
    Answers(ping, PongReply, latency)
  }

  /** A checked dependency, seen through both deadlines. */
  function Seen(name: string, probe: Probe, deadline: nat): CheckResult
    requires probe.Ready?
  {
    RunOne(Job(RegisteredCheck(name, None), probe), deadline).value
  }

  lemma SameSuffix(prefix: string, s: string)
    ensures forall t :: prefix + s == prefix + t ==> s == t
  {
    forall t | prefix + s == prefix + t ensures s == t {
      assert (prefix + s)[|prefix|..] == s && (prefix + t)[|prefix|..] == t;
    }
  }

  /** Nested deadlines, for every query: the sweep's result arrives within the
      effective deadline even when the registry's own is disabled, it is healthy
      or degraded exactly when the query succeeds within it, on either side of
      the warning threshold, and its duration is the query's latency or the
      effective deadline, whichever is shorter. Its message tells a late query
      from a failed one, and carries the latter's own error. */
  lemma SqlxClassification(name: string, limits: Limits, deadline: nat, query: Future<Result<(), string>>)
    ensures var r := Seen(name, SqlxCheck(limits, query), deadline);
            var limit := Effective(limits, deadline);
            && (r.status == Healthy <==> exists l: nat :: HealthySqlx(query, l) && l <= limit && l <= limits.warnAbove)
            && (r.status == Degraded <==> exists l: nat :: HealthySqlx(query, l) && limits.warnAbove < l <= limit)
            && r.duration == (if query.Ready? && query.at <= limit then query.at else limit)
            && (r.message == Some(CheckTimedOut(limit)) <==> query.Never? || query.at > limit)
            && (r.message == None <==> query.Ready? && query.at <= limit && query.value.Ok?)
            && (forall e :: r.message == Some(DependencyUnavailable("database probe failed: " + e)) <==>
                  query.Ready? && query.at <= limit && query.value == Err(e))
  {
    if query.Ready? && query.value.Ok? {
      assert HealthySqlx(query, query.at);
    }
    if query.Ready? && query.value.Err? {
      SameSuffix("database probe failed: ", query.value.error);
    }
  }

  lemma RedisClassification(name: string, limits: Limits, deadline: nat, ping: Future<PingOutcome>)
    ensures var r := Seen(name, RedisCheck(limits, ping), deadline);
            var limit := Effective(limits, deadline);
            && (r.status == Healthy <==> exists l: nat :: HealthyRedis(ping, l) && l <= limit && l <= limits.warnAbove)
            && (r.status == Degraded <==> exists l: nat :: HealthyRedis(ping, l) && limits.warnAbove < l <= limit)
            && r.duration == (if ping.Ready? && ping.at <= limit then ping.at else limit)
            && (r.message == Some(CheckTimedOut(limit)) <==> ping.Never? || ping.at > limit)
            && (r.message == None <==> ping.Ready? && ping.at <= limit && ping.value == Reply("PONG"))
            && (forall t :: r.message == Some(DependencyUnavailable("unexpected PING reply: " + t)) <==>
                  ping.Ready? && ping.at <= limit && ping.value == Reply(t) && t != "PONG")
            && (forall e :: r.message == Some(DependencyUnavailable("redis probe failed: " + e)) <==>
                  ping.Ready? && ping.at <= limit && ping.value == RedisError(e))
            && (forall e :: r.message == Some(CheckFailed("redis probe task failed: " + e)) <==>
                  ping.Ready? && ping.at <= limit && ping.value == TaskFailed(e))
  {
    if ping.Ready? {
      match ping.value
      case Reply(text) =>
        SameSuffix("unexpected PING reply: ", text);
        assert text == "PONG" ==> HealthyRedis(ping, ping.at);
      case RedisError(e) => SameSuffix("redis probe failed: ", e);
      case TaskFailed(e) => SameSuffix("redis probe task failed: ", e);
    }
    assert forall s, t :: ("unexpected PING reply: " + s)[0] != ("redis probe failed: " + t)[0];
  }

  /** The status of a successful probe as a function of its latency. */
  function StatusAt(limits: Limits, deadline: nat, latency: nat): HealthStatus {
    Seen("", SqlxCheck(limits, Ready(latency, Result.Ok(()))), deadline).status
  }

  /** Severity never decreases with latency, and `Degraded` can be seen at all
      exactly when the warning threshold lies below the effective deadline. */
  lemma {:induction false} NestedDeadlinesAreMonotone(limits: Limits, deadline: nat, latency: nat, slower: nat)
    requires latency <= slower
    ensures Severity(StatusAt(limits, deadline, latency)) <= Severity(StatusAt(limits, deadline, slower))
    ensures (exists l: nat :: StatusAt(limits, deadline, l) == Degraded) <==>
            limits.warnAbove < Effective(limits, deadline)
  {
    var limit := Effective(limits, deadline);
    if limits.warnAbove < limit {
      assert StatusAt(limits, deadline, limit) == Degraded;
    }
    if l: nat :| StatusAt(limits, deadline, l) == Degraded {
      assert limits.warnAbove < l <= limit;
    }
  }

  /** The two checkers agree: a PONG counts like a successful query. */
  lemma RedisAgreesWithSqlx(limits: Limits, deadline: nat, latency: nat)
    ensures Seen("", RedisCheck(limits, Ready(latency, Reply("PONG"))), deadline).status
         == StatusAt(limits, deadline, latency)
  {
  }

  /** From probe latency to HTTP code: among any other results, a dependency that
      gets slower never turns a failing readiness route into a passing one; the
      route passes only within the deadline, and in strict mode only within the
      warning threshold too. */
  lemma {:induction false} SlowerNeverHelps(
      before: seq<CheckResult>, after: seq<CheckResult>, name: string, limits: Limits,
      deadline: nat, latency: nat, slower: nat, strict: bool)
    requires latency <= slower
    ensures var fast := before + [Seen(name, SqlxCheck(limits, Ready(latency, Result.Ok(()))), deadline)] + after;
            var slow := before + [Seen(name, SqlxCheck(limits, Ready(slower, Result.Ok(()))), deadline)] + after;
            && (ReadinessCode(Aggregate(slow), strict) == HTTP_OK ==> ReadinessCode(Aggregate(fast), strict) == HTTP_OK)
            && (ReadinessCode(Aggregate(slow), strict) == HTTP_OK ==>
                  slower <= Effective(limits, deadline) && (strict ==> slower <= limits.warnAbove))
  {
    var f, g := Seen(name, SqlxCheck(limits, Ready(latency, Result.Ok(()))), deadline),
                Seen(name, SqlxCheck(limits, Ready(slower, Result.Ok(()))), deadline);
    var fast, slow := before + [f] + after, before + [g] + after;
    NestedDeadlinesAreMonotone(limits, deadline, latency, slower);
    assert g in slow;
    forall r | r in fast ensures exists q :: q in slow && Severity(r.status) <= Severity(q.status) {
      if r in before + after {
        assert r in slow;
      } else {
        assert g in slow && Severity(r.status) <= Severity(g.status);
      }
    }
    CodesAreMonotone(fast, slow, strict);
    ReadyExactly(slow, strict);
    SqlxClassification(name, limits, deadline, Ready(slower, Result.Ok(())));
  }
}
