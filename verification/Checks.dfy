/** Running checks (src/registry.rs): the per-check deadline, the concurrent
    join, groups, and aggregation to one status; and the HTTP codes drawn from
    it (src/axum.rs). Everything here is a value; the interleaved execution that
    refines it is in RegistryMachine. */
module Checks {
  import opened Types

  datatype RegisteredCheck = RegisteredCheck(name: string, group: Option<string>)

  /** What a check will do when it runs. */
  type Probe = Future<Outcome>

  datatype Job = Job(check: RegisteredCheck, probe: Probe)

  datatype Target = Everything | Group(name: string)

  // ----------------------------------------------------------------- run_one

  /** tokio's `timeout`: the value is polled before the timer, so a value that
      is ready at the limit still wins. `None` means the limit elapsed. */
  function Timeout<T>(limit: nat, f: Future<T>): (r: Future<Option<T>>)
    ensures r.Ready? && r.at <= limit
    ensures r.value.Some? <==> f.Ready? && f.at <= limit
    ensures r.value.Some? ==> r == Ready(f.at, Some(f.value))
    ensures r.value.None? ==> r.at == limit
  {
    if f.Ready? && f.at <= limit then Ready(f.at, Some(f.value)) else Ready(limit, None)
  }

  function Fold(name: string, outcome: Outcome, duration: nat): CheckResult {
    match outcome
    case Ok(status) => CheckResult(name, status, None, duration)
    case Err(e) => CheckResult(name, Unhealthy, Some(e), duration)
  }

  function RunOne(job: Job, deadline: nat): Future<CheckResult> {
    if deadline == 0 then
      match job.probe
      case Ready(at, outcome) => Ready(at, Fold(job.check.name, outcome, at))
      case Never => Never
    else
      var r := Timeout(deadline, job.probe);
      var outcome := match r.value case Some(o) => o case None => Err(CheckTimedOut(deadline));
      Ready(r.at, Fold(job.check.name, outcome, r.at))
  }

  // ---------------------------------------------------------------- join_all

  function Max(a: nat, b: nat): nat {
    if a >= b then a else b
  }

  function JoinAll<T>(fs: seq<Future<T>>): Future<seq<T>> {
    if fs == [] then Ready(0, [])
    else
      match (fs[0], JoinAll(fs[1..]))
      case (Ready(at, v), Ready(rest, vs)) => Ready(Max(at, rest), [v] + vs)
      case (_, _) => Never
  }

  function RunAll(jobs: seq<Job>, deadline: nat): seq<Future<CheckResult>> {
    seq(|jobs|, i requires 0 <= i < |jobs| => RunOne(jobs[i], deadline))
  }

  function Select(target: Target, jobs: seq<Job>): seq<Job> {
    if jobs == [] then []
    else
      (if target == Everything || jobs[0].check.group == Some(target.name) then [jobs[0]] else [])
      + Select(target, jobs[1..])
  }

  /** `check_all` and `check_group` on one snapshot. */
  function Probed(target: Target, jobs: seq<Job>, deadline: nat): Future<seq<CheckResult>> {
    JoinAll(RunAll(Select(target, jobs), deadline))
  }

  function Sum<T>(fs: seq<Future<T>>): nat {
    if fs == [] then 0 else (if fs[0].Ready? then fs[0].at else 0) + Sum(fs[1..])
  }

  /** A join is ready exactly when every part is; its value keeps the order of
      the parts, its instant is the latest of theirs and at most their sum. */
  lemma {:induction false} JoinExactness<T>(fs: seq<Future<T>>)
    ensures JoinAll(fs).Ready? <==> forall f | f in fs :: f.Ready?
    ensures JoinAll(fs).Ready? ==>
              && |JoinAll(fs).value| == |fs|
              && (forall i | 0 <= i < |fs| :: JoinAll(fs).value[i] == fs[i].value && fs[i].at <= JoinAll(fs).at)
              && (if fs == [] then JoinAll(fs).at == 0 else exists i | 0 <= i < |fs| :: fs[i].at == JoinAll(fs).at)
              && JoinAll(fs).at <= Sum(fs)
    decreases fs
  {
    if fs == [] {
    } else {
      JoinExactness(fs[1..]);
      assert fs == [fs[0]] + fs[1..];
      if JoinAll(fs).Ready? {
        var tail := fs[1..];
        forall i | 0 <= i < |fs|
          ensures JoinAll(fs).value[i] == fs[i].value && fs[i].at <= JoinAll(fs).at
        {
          if i > 0 {
            assert tail[i - 1] == fs[i];
          }
        }
        if fs[0].at < JoinAll(tail).at {
          var i :| 0 <= i < |tail| && tail[i].at == JoinAll(tail).at;
          assert fs[i + 1].at == JoinAll(fs).at;
        } else {
          assert fs[0].at == JoinAll(fs).at;
        }
      }
    }
  }

  /** Earliest instant at which a check's slot is settled. */
  function Due(job: Job, deadline: nat): Option<nat> {
    match job.probe
    case Ready(at, _) => if deadline != 0 && deadline < at then Some(deadline) else Some(at)
    case Never => if deadline != 0 then Some(deadline) else None
  }

  lemma RunOneIsDue(job: Job, deadline: nat)
    ensures RunOne(job, deadline).Ready? <==> Due(job, deadline).Some?
    ensures Due(job, deadline).Some? ==> RunOne(job, deadline).at == Due(job, deadline).value
    ensures Due(job, deadline).Some? ==> RunOne(job, deadline).value.duration == Due(job, deadline).value
  {
  }

  /** A result that carries what the check answered: its own status without a
      message, or unhealthy with its own error. */
  ghost predicate Carries(r: CheckResult, outcome: Outcome) {
    match outcome
    case Ok(status) => r.status == status && r.message == None
    case Err(e) => r.status == Unhealthy && r.message == Some(e)
  }

  /** A result of one check, in terms of what the check did: if it had answered
      by then, its own answer, else the deadline had passed. */
  ghost predicate Reports(r: CheckResult, job: Job, deadline: nat) {
    && r.name == job.check.name
    && if job.probe.Ready? && job.probe.at <= r.duration then Carries(r, job.probe.value)
       else 0 < deadline <= r.duration && r.status == Unhealthy && r.message == Some(CheckTimedOut(deadline))
  }

  /** A check that answers within the deadline, or without one, is reported as it
      answered and when it did; any other as timed out, at the deadline. */
  lemma {:induction false} RunOneReports(job: Job, deadline: nat)
    ensures RunOne(job, deadline).Ready? <==> deadline != 0 || job.probe.Ready?
    ensures RunOne(job, deadline).Ready? ==>
              var r := RunOne(job, deadline).value;
              && Reports(r, job, deadline)
              && (if job.probe.Ready? && (deadline == 0 || job.probe.at <= deadline)
                  then r.duration == job.probe.at && Carries(r, job.probe.value)
                  else r.duration == deadline && r.message == Some(CheckTimedOut(deadline)))
  {
  }

  /** A sweep takes as long as its slowest check allows itself to: with a
      nonzero deadline it always finishes, within one deadline, never later than
      running the checks one after another would. Each result depends on its own
      job alone. */
  lemma {:induction false} SweepMakespan(jobs: seq<Job>, deadline: nat)
    ensures var r := JoinAll(RunAll(jobs, deadline));
            && (r.Ready? <==> forall i | 0 <= i < |jobs| :: Due(jobs[i], deadline).Some?)
            && (deadline != 0 ==> r.Ready? && r.at <= deadline)
            && (r.Ready? ==>
                  && |r.value| == |jobs|
                  && (forall i | 0 <= i < |jobs| ::
                        && r.value[i] == RunOne(jobs[i], deadline).value
                        && Reports(r.value[i], jobs[i], deadline)
                        && r.value[i].duration == Due(jobs[i], deadline).value <= r.at)
                  && (jobs != [] ==> exists i | 0 <= i < |jobs| :: Due(jobs[i], deadline) == Some(r.at))
                  && (jobs == [] ==> r.at == 0)
                  && r.at <= Sum(RunAll(jobs, deadline)))
  {
    var fs := RunAll(jobs, deadline);
    JoinExactness(fs);
    forall i | 0 <= i < |jobs|
      ensures fs[i].Ready? <==> Due(jobs[i], deadline).Some?
      ensures fs[i].Ready? ==>
                && fs[i].at == fs[i].value.duration == Due(jobs[i], deadline).value
                && Reports(fs[i].value, jobs[i], deadline)
    {
      RunOneIsDue(jobs[i], deadline);
      RunOneReports(jobs[i], deadline);
      assert fs[i] in fs;
    }
    if JoinAll(fs).Ready? && jobs != [] {
      var i :| 0 <= i < |fs| && fs[i].at == JoinAll(fs).at;
      assert Due(jobs[i], deadline) == Some(JoinAll(fs).at);
    }
  }

  // ------------------------------------------------------------- aggregation

  /** The key of `max_by_key`. */
  function Severity(s: HealthStatus): nat {
    match s case Healthy => 0 case Degraded => 1 case Unhealthy => 2
  }

  /** `aggregate`: the later of equal maxima wins, no results count as healthy. */
  function Aggregate(results: seq<CheckResult>): HealthStatus {
    if results == [] then Healthy
    else
      var before, last := Aggregate(results[..|results| - 1]), results[|results| - 1].status;
      if Severity(last) >= Severity(before) then last else before
  }

  ghost predicate IsWorst(s: HealthStatus, results: seq<CheckResult>) {
    && (forall r | r in results :: Severity(r.status) <= Severity(s))
    && (s == Healthy || exists r :: r in results && r.status == s)
  }

  lemma {:induction false} AggregateBounds(results: seq<CheckResult>)
    ensures IsWorst(Aggregate(results), results)
    decreases results
  {
    if results == [] {
    } else {
      var init, last := results[..|results| - 1], results[|results| - 1];
      AggregateBounds(init);
      assert results == init + [last] && last in results;
      if Aggregate(results) != Healthy && Aggregate(results) != last.status {
        var r :| r in init && r.status == Aggregate(init);
        assert r in results;
      }
    }
  }

  /** Aggregation is the worst observed status, and that determines it. */
  lemma AggregateIsWorst(results: seq<CheckResult>, s: HealthStatus)
    ensures Aggregate(results) == s <==> IsWorst(s, results)
  {
    AggregateBounds(results);
  }

  /** `aggregate_status`, the copy of the axum handlers, as the left fold that
      `max_by_key` is. */
  function AggregateStatus(results: seq<CheckResult>): HealthStatus {
    if results == [] then Healthy else WorstFrom(results[0].status, results[1..])
  }

  function WorstFrom(best: HealthStatus, rest: seq<CheckResult>): HealthStatus
    decreases rest
  {
    if rest == [] then best
    else WorstFrom(if Severity(rest[0].status) >= Severity(best) then rest[0].status else best, rest[1..])
  }

  lemma {:induction false} WorstFromBounds(best: HealthStatus, rest: seq<CheckResult>)
    ensures var worst := WorstFrom(best, rest);
            && Severity(best) <= Severity(worst)
            && (forall r | r in rest :: Severity(r.status) <= Severity(worst))
            && (worst == best || exists r :: r in rest && r.status == worst)
    decreases rest
  {
    if rest == [] {
    } else {
      WorstFromBounds(if Severity(rest[0].status) >= Severity(best) then rest[0].status else best, rest[1..]);
      assert rest == [rest[0]] + rest[1..] && rest[0] in rest;
    }
  }

  /** The two implementations agree on every list. */
  lemma {:induction false} AggregatesAgree(results: seq<CheckResult>)
    ensures AggregateStatus(results) == Aggregate(results)
  {
    if results != [] {
      WorstFromBounds(results[0].status, results[1..]);
      assert results == [results[0]] + results[1..] && results[0] in results;
      assert AggregateStatus(results) != results[0].status ==>
          exists r :: r in results[1..] && r.status == AggregateStatus(results);
    }
    AggregateIsWorst(results, AggregateStatus(results));
  }

  /** Order does not matter, only which results there are. */
  lemma AggregatePermutes(a: seq<CheckResult>, b: seq<CheckResult>)
    requires multiset(a) == multiset(b)
    ensures Aggregate(a) == Aggregate(b)
  {
    AggregateBounds(a);
    forall r ensures r in a <==> r in b {
      assert r in multiset(a) <==> r in multiset(b);
    }
    AggregateIsWorst(b, Aggregate(a));
  }

  lemma AggregateConcat(a: seq<CheckResult>, b: seq<CheckResult>)
    ensures Severity(Aggregate(a + b)) == Max(Severity(Aggregate(a)), Severity(Aggregate(b)))
  {
    AggregateBounds(a);
    AggregateBounds(b);
    AggregateBounds(a + b);
  }

  /** Liveness as documented: healthy if all checks pass, unhealthy otherwise. */
  function DocumentedLiveness(results: seq<CheckResult>): HealthStatus {
    if forall r | r in results :: r.status == Healthy then Healthy else Unhealthy
  }

  ghost predicate SomeStatus(results: seq<CheckResult>, s: HealthStatus) {
    exists r :: r in results && r.status == s
  }

  /** The status that liveness and readiness return is the documented one exactly
      when no check is degraded, or an unhealthy one outweighs it. */
  lemma {:induction false} LivenessAsDocumentedExactly(results: seq<CheckResult>)
    ensures Aggregate(results) == DocumentedLiveness(results) <==>
            !SomeStatus(results, Degraded) || SomeStatus(results, Unhealthy)
  {
    AggregateBounds(results);
  }

  /** A single degraded check is reported as such. */
  lemma DegradedLiveness(r: CheckResult)
    requires r.status == Degraded
    ensures Aggregate([r]) == Degraded && DocumentedLiveness([r]) == Unhealthy
  {
    AggregateBounds([r]);
    assert r in [r];
  }

  // ------------------------------------------------------------- HTTP codes

  const HTTP_OK: nat := 200
  const HTTP_UNAVAILABLE: nat := 503

  function ReadinessCode(status: HealthStatus, degradedFails: bool): nat {
    var degradedOk := status == Degraded && !degradedFails;
    if status == Healthy || degradedOk then HTTP_OK else HTTP_UNAVAILABLE
  }

  /** `ReadinessConfig::default()`. */
  const DEFAULT_DEGRADED_FAILS := false

  /** The default route as its documentation has it: degraded responds 503. */
  function DocumentedDefaultCode(status: HealthStatus): nat {
    if status == Healthy then HTTP_OK else HTTP_UNAVAILABLE
  }

  function StartupCode(status: HealthStatus): nat {
    if status == Healthy then HTTP_OK else HTTP_UNAVAILABLE
  }

  /** Every result on the left has one on the right that is at least as bad:
      what adding, worsening or reordering checks does to a list. */
  ghost predicate NoBetter(a: seq<CheckResult>, b: seq<CheckResult>) {
    forall r | r in a :: exists q :: q in b && Severity(r.status) <= Severity(q.status)
  }

  /** Adding or worsening a check never turns a 503 into a 200, and a pod that
      passes strict readiness (or the startup probe) passes lenient readiness. */
  lemma {:induction false} CodesAreMonotone(a: seq<CheckResult>, b: seq<CheckResult>, degradedFails: bool)
    requires NoBetter(a, b)
    ensures ReadinessCode(Aggregate(b), degradedFails) == HTTP_OK ==>
              ReadinessCode(Aggregate(a), degradedFails) == HTTP_OK
    ensures StartupCode(Aggregate(b)) == HTTP_OK ==> StartupCode(Aggregate(a)) == HTTP_OK
    ensures ReadinessCode(Aggregate(b), true) == HTTP_OK ==> ReadinessCode(Aggregate(b), degradedFails) == HTTP_OK
    ensures StartupCode(Aggregate(b)) == ReadinessCode(Aggregate(b), true)
  {
    AggregateBounds(a);
    AggregateBounds(b);
    if Aggregate(a) != Healthy {
      var r :| r in a && r.status == Aggregate(a);
      var q :| q in b && Severity(r.status) <= Severity(q.status);
      assert Severity(q.status) <= Severity(Aggregate(b));
    }
  }

  /** The code spelled out over the individual results. */
  lemma {:induction false} ReadyExactly(results: seq<CheckResult>, degradedFails: bool)
    ensures ReadinessCode(Aggregate(results), degradedFails)
         == if forall r | r in results :: r.status == Healthy || (r.status == Degraded && !degradedFails)
            then 200 else 503
    ensures StartupCode(Aggregate(results)) == if forall r | r in results :: r.status == Healthy then 200 else 503
  {
    AggregateBounds(results);
  }

  /** The default route answers as its documentation says exactly when no check
      is degraded, or an unhealthy one outweighs it. */
  lemma {:induction false} DefaultRouteAsDocumentedExactly(results: seq<CheckResult>)
    ensures ReadinessCode(Aggregate(results), DEFAULT_DEGRADED_FAILS) == DocumentedDefaultCode(Aggregate(results)) <==>
            !SomeStatus(results, Degraded) || SomeStatus(results, Unhealthy)
  {
    AggregateBounds(results);
  }

  /** A single degraded check passes by default. */
  lemma DegradedPassesByDefault(r: CheckResult)
    requires r.status == Degraded
    ensures ReadinessCode(Aggregate([r]), DEFAULT_DEGRADED_FAILS) == 200
    ensures DocumentedDefaultCode(Aggregate([r])) == 503
  {
    DegradedLiveness(r);
  }

  // ------------------------------------------------------------------ groups

  /** The results, among those of all jobs, that belong to a target. */
  function FilterResults(target: Target, jobs: seq<Job>, results: seq<CheckResult>): seq<CheckResult>
    requires |jobs| == |results|
    decreases jobs
  {
    if jobs == [] then []
    else
      (if target == Everything || jobs[0].check.group == Some(target.name) then [results[0]] else [])
      + FilterResults(target, jobs[1..], results[1..])
  }

  function Ungrouped(jobs: seq<Job>, results: seq<CheckResult>): seq<CheckResult>
    requires |jobs| == |results|
    decreases jobs
  {
    if jobs == [] then []
    else (if jobs[0].check.group == None then [results[0]] else []) + Ungrouped(jobs[1..], results[1..])
  }

  lemma {:induction false} SelectEverything(jobs: seq<Job>)
    ensures Select(Everything, jobs) == jobs
    decreases jobs
  {
    if jobs == [] {
    } else {
      SelectEverything(jobs[1..]);
    }
  }

  predicate Targets(target: Target, job: Job) {
    target == Everything || job.check.group == Some(target.name)
  }

  /** The selected jobs are those at `places`: the targeted ones, in order. */
  ghost predicate Places(target: Target, jobs: seq<Job>, selected: seq<Job>, places: seq<nat>) {
    && |places| == |selected|
    && (forall i, j | 0 <= i < j < |places| :: places[i] < places[j])
    && (forall i | 0 <= i < |places| :: places[i] < |jobs| && selected[i] == jobs[places[i]])
    && (forall k: nat | k < |jobs| && Targets(target, jobs[k]) :: k in places)
    && (forall k | k in places && k < |jobs| :: Targets(target, jobs[k]))
  }

  function Shift(places: seq<nat>): seq<nat> {
    seq(|places|, i requires 0 <= i < |places| => places[i] + 1)
  }

  lemma ShiftedPlaces(places: seq<nat>)
    ensures forall k: nat :: k + 1 in Shift(places) <==> k in places
    ensures 0 !in Shift(places)
  {
    forall k: nat | k in places ensures k + 1 in Shift(places) {
      var i :| 0 <= i < |places| && places[i] == k;
      assert Shift(places)[i] == k + 1;
    }
  }

  lemma SkipOne(target: Target, jobs: seq<Job>, selected: seq<Job>, places: seq<nat>)
    requires jobs != [] && Places(target, jobs[1..], selected, places) && !Targets(target, jobs[0])
    ensures Places(target, jobs, selected, Shift(places))
  {
    ShiftedPlaces(places);
    forall k: nat | k < |jobs| ensures k in Shift(places) <==> Targets(target, jobs[k]) {
      if k > 0 {
        assert k in Shift(places) <==> k - 1 in places by {
          assert (k - 1) + 1 in Shift(places) <==> k - 1 in places;
        }
        assert jobs[1..][k - 1] == jobs[k];
      }
    }
  }

  lemma TakeOne(target: Target, jobs: seq<Job>, selected: seq<Job>, places: seq<nat>)
    requires jobs != [] && Targets(target, jobs[0])
    requires |places| == |selected| && forall i | 0 <= i < |places| :: 0 < places[i]
    requires forall i, j | 0 <= i < j < |places| :: places[i] < places[j]
    requires forall i | 0 <= i < |places| :: places[i] < |jobs| && selected[i] == jobs[places[i]]
    requires forall k: nat | 0 < k < |jobs| :: k in places <==> Targets(target, jobs[k])
    ensures Places(target, jobs, [jobs[0]] + selected, [0] + places)
  {
    var all := [0] + places;
    forall k: nat | k < |jobs| ensures k in all <==> Targets(target, jobs[k]) {
      assert k in all <==> k == 0 || k in places;
    }
  }

  lemma ShiftedRest(target: Target, jobs: seq<Job>, selected: seq<Job>, places: seq<nat>)
    requires jobs != [] && Places(target, jobs[1..], selected, places)
    ensures var shifted := Shift(places);
            && |shifted| == |selected| && (forall i | 0 <= i < |shifted| :: 0 < shifted[i])
            && (forall i, j | 0 <= i < j < |shifted| :: shifted[i] < shifted[j])
            && (forall i | 0 <= i < |shifted| :: shifted[i] < |jobs| && selected[i] == jobs[shifted[i]])
            && (forall k: nat | 0 < k < |jobs| :: k in shifted <==> Targets(target, jobs[k]))
  {
    ShiftedPlaces(places);
    forall k: nat | 0 < k < |jobs| ensures k in Shift(places) <==> Targets(target, jobs[k]) {
      assert (k - 1) + 1 in Shift(places) <==> k - 1 in places;
      assert jobs[1..][k - 1] == jobs[k];
    }
  }

  /** A selection is the subsequence of the targeted jobs: all of them, in their
      order, and nothing else. */
  lemma {:induction false} SelectExactly(target: Target, jobs: seq<Job>) returns (places: seq<nat>)
    ensures Places(target, jobs, Select(target, jobs), places)
    decreases jobs
  {
    hide Places, Shift;
    if jobs == [] {
      places := [];
      NoPlaces(target);
    } else {
      var tail := SelectExactly(target, jobs[1..]);
      if Targets(target, jobs[0]) {
        ShiftedRest(target, jobs, Select(target, jobs[1..]), tail);
        places := [0] + Shift(tail);
        TakeOne(target, jobs, Select(target, jobs[1..]), Shift(tail));
      } else {
        places := Shift(tail);
        SkipOne(target, jobs, Select(target, jobs[1..]), tail);
        assert Select(target, jobs) == Select(target, jobs[1..]);
      }
    }
  }

  lemma NoPlaces(target: Target)
    ensures Places(target, [], [], [])
  {
  }

  /** On one snapshot with equal behaviour, probing a group returns exactly the
      group's results of probing everything, in the same order, and no later. */
  lemma {:induction false} GroupRefinesAll(target: Target, jobs: seq<Job>, deadline: nat)
    requires JoinAll(RunAll(jobs, deadline)).Ready?
    ensures |JoinAll(RunAll(jobs, deadline)).value| == |jobs|
    ensures var all, part := JoinAll(RunAll(jobs, deadline)), Probed(target, jobs, deadline);
            part.Ready? && part.at <= all.at && part.value == FilterResults(target, jobs, all.value)
    decreases jobs
  {
    JoinExactness(RunAll(jobs, deadline));
    if jobs == [] {
    } else {
      var rest := jobs[1..];
      assert RunAll(jobs, deadline)[1..] == RunAll(rest, deadline);
      GroupRefinesAll(target, rest, deadline);
      if target == Everything || jobs[0].check.group == Some(target.name) {
        var picked := [jobs[0]] + Select(target, rest);
        assert RunAll(picked, deadline)[1..] == RunAll(Select(target, rest), deadline);
      } else {
        assert Select(target, jobs) == Select(target, rest);
      }
    }
  }

  /** The same by places: a group probe gives, in order, the results that probing
      everything gives to the group's checks. */
  lemma {:induction false} GroupResultsExactly(target: Target, jobs: seq<Job>, deadline: nat) returns (places: seq<nat>)
    requires JoinAll(RunAll(jobs, deadline)).Ready?
    ensures Places(target, jobs, Select(target, jobs), places)
    ensures var all, part := JoinAll(RunAll(jobs, deadline)), Probed(target, jobs, deadline);
            && part.Ready? && |part.value| == |places|
            && forall i | 0 <= i < |places| :: places[i] < |all.value| && part.value[i] == all.value[places[i]]
  {
    hide JoinAll, Reports, RunOne, Due;
    places := SelectExactly(target, jobs);
    SweepMakespan(jobs, deadline);
    GroupRefinesAll(target, jobs, deadline);
    SweepMakespan(Select(target, jobs), deadline);
  }

  /** The ungrouped results followed by those of each named group. */
  function Parts(names: seq<string>, jobs: seq<Job>, results: seq<CheckResult>): seq<CheckResult>
    requires |jobs| == |results|
    decreases names
  {
    if names == [] then Ungrouped(jobs, results)
    else Parts(names[..|names| - 1], jobs, results) + FilterResults(Group(names[|names| - 1]), jobs, results)
  }

  ghost predicate Distinct(names: seq<string>) {
    forall i, j | 0 <= i < j < |names| :: names[i] != names[j]
  }

  /** One more job in front lands in at most one part... */
  function InPart(owner: bool, r: CheckResult): multiset<CheckResult> {
    if owner then multiset{r} else multiset{}
  }

  lemma PartOfCons(jobs: seq<Job>, results: seq<CheckResult>, n: string)
    requires |jobs| == |results| > 0
    ensures multiset(FilterResults(Group(n), jobs, results))
         == InPart(jobs[0].check.group == Some(n), results[0])
          + multiset(FilterResults(Group(n), jobs[1..], results[1..]))
    ensures multiset(Ungrouped(jobs, results))
         == InPart(jobs[0].check.group == None, results[0]) + multiset(Ungrouped(jobs[1..], results[1..]))
  {
  }

  lemma LastIsNew(names: seq<string>)
    requires names != [] && Distinct(names)
    ensures var init, n := names[..|names| - 1], names[|names| - 1];
            Distinct(init) && n !in init && forall x :: x in names <==> x in init || x == n
  {
    assert names == names[..|names| - 1] + [names[|names| - 1]];
  }

  lemma PartsBag(names: seq<string>, jobs: seq<Job>, results: seq<CheckResult>)
    requires |jobs| == |results| && names != []
    ensures multiset(Parts(names, jobs, results))
         == multiset(Parts(names[..|names| - 1], jobs, results))
          + multiset(FilterResults(Group(names[|names| - 1]), jobs, results))
  {
  }

  lemma CombineParts(p: multiset<CheckResult>, q: multiset<CheckResult>, a: bool, b: bool, r: CheckResult)
    requires !(a && b)
    ensures (InPart(a, r) + p) + (InPart(b, r) + q) == InPart(a || b, r) + (p + q)
  {
  }

  /** ... and in exactly one when its group is listed. */
  lemma {:induction false} PartsOfCons(names: seq<string>, jobs: seq<Job>, results: seq<CheckResult>)
    requires |jobs| == |results| > 0 && Distinct(names)
    ensures var g := jobs[0].check.group;
            multiset(Parts(names, jobs, results))
            == InPart(g == None || g.value in names, results[0]) + multiset(Parts(names, jobs[1..], results[1..]))
    decreases names
  {
    if names == [] {
      PartOfCons(jobs, results, "");
    } else {
      var init, n := names[..|names| - 1], names[|names| - 1];
      var g := jobs[0].check.group;
      LastIsNew(names);
      PartsOfCons(init, jobs, results);
      PartOfCons(jobs, results, n);
      PartsBag(names, jobs, results);
      PartsBag(names, jobs[1..], results[1..]);
      CombineParts(multiset(Parts(init, jobs[1..], results[1..])),
                   multiset(FilterResults(Group(n), jobs[1..], results[1..])),
                   g == None || g.value in init, g == Some(n), results[0]);
    }
  }

  lemma {:induction false} NothingToPart(names: seq<string>)
    ensures Parts(names, [], []) == []
    decreases names
  {
    if names == [] {
    } else {
      NothingToPart(names[..|names| - 1]);
    }
  }

  /** Named groups and ungrouped checks partition the results of a sweep. */
  lemma {:induction false} GroupsPartition(names: seq<string>, jobs: seq<Job>, results: seq<CheckResult>)
    requires |jobs| == |results| && Distinct(names)
    requires forall j | j in jobs :: j.check.group == None || j.check.group.value in names
    ensures multiset(Parts(names, jobs, results)) == multiset(results)
    decreases jobs
  {
    if jobs == [] {
      NothingToPart(names);
    } else {
      PartsOfCons(names, jobs, results);
      GroupsPartition(names, jobs[1..], results[1..]);
      assert jobs[0] in jobs;
      assert results == [results[0]] + results[1..];
    }
  }

  /** The overall status is the worst of the part statuses, so no group is ever
      worse than readiness over everything. */
  function WorstPart(names: seq<string>, jobs: seq<Job>, results: seq<CheckResult>): nat
    requires |jobs| == |results|
    decreases names
  {
    if names == [] then Severity(Aggregate(Ungrouped(jobs, results)))
    else
      Max(WorstPart(names[..|names| - 1], jobs, results),
          Severity(Aggregate(FilterResults(Group(names[|names| - 1]), jobs, results))))
  }

  lemma {:induction false} WorstOfParts(names: seq<string>, jobs: seq<Job>, results: seq<CheckResult>)
    requires |jobs| == |results|
    ensures Severity(Aggregate(Parts(names, jobs, results))) == WorstPart(names, jobs, results)
    ensures forall n | n in names ::
              Severity(Aggregate(FilterResults(Group(n), jobs, results))) <= WorstPart(names, jobs, results)
    decreases names
  {
    if names == [] {
    } else {
      var init, n := names[..|names| - 1], names[|names| - 1];
      WorstOfParts(init, jobs, results);
      assert names == init + [n];
      AggregateConcat(Parts(init, jobs, results), FilterResults(Group(n), jobs, results));
    }
  }

  lemma {:induction false} ReadinessIsWorstOfGroups(names: seq<string>, jobs: seq<Job>, results: seq<CheckResult>)
    requires |jobs| == |results| && Distinct(names)
    requires forall j | j in jobs :: j.check.group == None || j.check.group.value in names
    ensures Severity(Aggregate(results)) == WorstPart(names, jobs, results)
    ensures forall n | n in names ::
              Severity(Aggregate(FilterResults(Group(n), jobs, results))) <= Severity(Aggregate(results))
  {
    GroupsPartition(names, jobs, results);
    WorstOfParts(names, jobs, results);
    AggregatePermutes(Parts(names, jobs, results), results);
  }
}
