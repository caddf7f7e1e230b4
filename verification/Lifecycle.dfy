/** The lifecycle of the example service (examples/k8s_service.rs): two flags,
    the checks that read them, and the probe routes over one registry, from boot
    to drain. Requests run concurrently with the flag stores. */
module Lifecycle {
  import opened Types
  import opened Checks
  import opened Registry

  const INIT_GROUP := "init"

  /** The example's per-check deadline, two seconds. */
  const DEADLINE: nat := 2_000_000_000

  const INITIALIZED := RegisteredCheck("initialized", Some(INIT_GROUP))
  const DRAINING := RegisteredCheck("draining", None)

  function InitializedOutcome(flag: bool): Outcome {
    if flag then Result.Ok(Healthy) else Err(DependencyUnavailable("initialization"))
  }

  function DrainingOutcome(flag: bool): Outcome {
    if flag then Err(ShuttingDown) else Result.Ok(Healthy)
  }

  function Dependencies(redis: bool): seq<RegisteredCheck> {
    [RegisteredCheck("database", None)] + if redis then [RegisteredCheck("cache", None)] else []
  }

  // ------------------------------------------------------------------- routes

  datatype Route = Readyz(degradedFails: bool) | Startupz

  /** The service's jobs in one probe: its dependencies, whatever they are, and
      the two flag checks with what they read. */
  function ServiceJobs(deps: seq<Job>, init: bool, drain: bool): seq<Job> {
    deps + [Job(INITIALIZED, Ready(0, InitializedOutcome(init))), Job(DRAINING, Ready(0, DrainingOutcome(drain)))]
  }

  function Code(route: Route, deps: seq<Job>, init: bool, drain: bool): nat {
    var jobs := ServiceJobs(deps, init, drain);
    match route
    case Readyz(degradedFails) => ReadinessCode(Aggregate(ResultsOf(Probed(Everything, jobs, DEADLINE))), degradedFails)
    case Startupz => StartupCode(AggregateStatus(ResultsOf(Probed(Group(INIT_GROUP), jobs, DEADLINE))))
  }

  /** With a nonzero deadline every probe returns. */
  function ResultsOf(f: Future<seq<CheckResult>>): seq<CheckResult> {
    if f.Ready? then f.value else []
  }

  lemma {:induction false} SelectAppend(target: Target, a: seq<Job>, b: seq<Job>)
    ensures Select(target, a + b) == Select(target, a) + Select(target, b)
    decreases a
  {
    if a == [] {
      assert a + b == b;
    } else {
      assert (a + b)[1..] == a[1..] + b && (a + b)[0] == a[0];
      SelectAppend(target, a[1..], b);
    }
  }

  predicate InInit(job: Job) {
    job.check.group == Some(INIT_GROUP)
  }

  lemma {:induction false} SelectMembers(deps: seq<Job>, d: Job)
    ensures d in Select(Group(INIT_GROUP), deps) <==> d in deps && InInit(d)
    decreases deps
  {
    if deps == [] {
    } else {
      SelectMembers(deps[1..], d);
      assert deps == [deps[0]] + deps[1..];
    }
  }

  /** The flag checks settle at once, so the deadline never touches them. */
  lemma FlagResults(init: bool, drain: bool)
    ensures RunOne(Job(INITIALIZED, Ready(0, InitializedOutcome(init))), DEADLINE)
         == Ready(0, Fold("initialized", InitializedOutcome(init), 0))
    ensures RunOne(Job(DRAINING, Ready(0, DrainingOutcome(drain))), DEADLINE)
         == Ready(0, Fold("draining", DrainingOutcome(drain), 0))
  {
  }

  /** The results of probing everything: the dependencies', then the flags'. */
  lemma ServiceResults(deps: seq<Job>, init: bool, drain: bool) returns (results: seq<CheckResult>)
    ensures Probed(Everything, ServiceJobs(deps, init, drain), DEADLINE).Ready?
    ensures results == ResultsOf(Probed(Everything, ServiceJobs(deps, init, drain), DEADLINE))
    ensures |results| == |deps| + 2
    ensures forall i | 0 <= i < |deps| :: results[i] == RunOne(deps[i], DEADLINE).value
    ensures results[|deps|]
         == (if init then CheckResult("initialized", Healthy, None, 0)
             else CheckResult("initialized", Unhealthy, Some(DependencyUnavailable("initialization")), 0))
    ensures results[|deps| + 1]
         == (if drain then CheckResult("draining", Unhealthy, Some(ShuttingDown), 0)
             else CheckResult("draining", Healthy, None, 0))
  {
    var jobs := ServiceJobs(deps, init, drain);
    SelectEverything(jobs);
    SweepMakespan(jobs, DEADLINE);
    FlagResults(init, drain);
    results := JoinAll(RunAll(jobs, DEADLINE)).value;
    assert forall i | 0 <= i < |deps| :: jobs[i] == deps[i];
  }

  predicate Acceptable(s: HealthStatus, degradedFails: bool) {
    s == Healthy || (s == Degraded && !degradedFails)
  }

  /** Readiness passes exactly when initialization is done, no drain was seen,
      and every dependency is acceptable to the mode. */
  lemma ReadyzExactly(deps: seq<Job>, init: bool, drain: bool, degradedFails: bool)
    ensures Code(Readyz(degradedFails), deps, init, drain)
         == if init && !drain && forall d | d in deps :: Acceptable(RunOne(d, DEADLINE).value.status, degradedFails)
            then 200 else 503
  {
    var results := ServiceResults(deps, init, drain);
    ReadyExactly(results, degradedFails);
    assert results[|deps|] in results && results[|deps| + 1] in results;
    if init && !drain && forall d | d in deps :: Acceptable(RunOne(d, DEADLINE).value.status, degradedFails) {
      forall r | r in results ensures Acceptable(r.status, degradedFails) {
        var i :| 0 <= i < |results| && results[i] == r;
        assert i < |deps| ==> deps[i] in deps;
      }
    }
    if Code(Readyz(degradedFails), deps, init, drain) == 200 {
      forall d | d in deps ensures Acceptable(RunOne(d, DEADLINE).value.status, degradedFails) {
        var i :| 0 <= i < |deps| && deps[i] == d;
        assert results[i] in results;
      }
    }
  }

  lemma InitGroupJobs(deps: seq<Job>, init: bool, drain: bool)
    ensures Select(Group(INIT_GROUP), ServiceJobs(deps, init, drain))
         == Select(Group(INIT_GROUP), deps) + [Job(INITIALIZED, Ready(0, InitializedOutcome(init)))]
  {
    var i, d := Job(INITIALIZED, Ready(0, InitializedOutcome(init))), Job(DRAINING, Ready(0, DrainingOutcome(drain)));
    SelectAppend(Group(INIT_GROUP), deps, [i, d]);
    assert [i, d][1..] == [d] && [d][1..] == [];
    assert Select(Group(INIT_GROUP), [d]) == [];
    assert Select(Group(INIT_GROUP), [i, d]) == [i];
  }

  lemma StartupResults(deps: seq<Job>, init: bool, drain: bool) returns (results: seq<CheckResult>)
    ensures Probed(Group(INIT_GROUP), ServiceJobs(deps, init, drain), DEADLINE).Ready?
    ensures results == ResultsOf(Probed(Group(INIT_GROUP), ServiceJobs(deps, init, drain), DEADLINE))
    ensures var picked := Select(Group(INIT_GROUP), deps);
            && |results| == |picked| + 1
            && (forall i | 0 <= i < |picked| :: results[i] == RunOne(picked[i], DEADLINE).value)
            && results[|picked|].status == if init then Healthy else Unhealthy
  {
    var picked := Select(Group(INIT_GROUP), deps);
    var jobs := picked + [Job(INITIALIZED, Ready(0, InitializedOutcome(init)))];
    InitGroupJobs(deps, init, drain);
    SweepMakespan(jobs, DEADLINE);
    FlagResults(init, drain);
    results := JoinAll(RunAll(jobs, DEADLINE)).value;
    assert forall i | 0 <= i < |picked| :: jobs[i] == picked[i];
  }

  /** A dependency that has not answered after two seconds fails readiness, in
      both modes, and so does one that answers with an error or as unhealthy. */
  lemma {:induction false} FailingDependency(deps: seq<Job>, d: Job, init: bool, drain: bool, degradedFails: bool)
    requires d in deps
    requires d.probe.Never? || d.probe.at > 2_000_000_000 || d.probe.value.Err?
             || d.probe.value == Result.Ok(Unhealthy)
    ensures Code(Readyz(degradedFails), deps, init, drain) == 503
  {
    RunOneReports(d, DEADLINE);
    ReadyzExactly(deps, init, drain, degradedFails);
  }

  lemma StartupCodeOfResults(deps: seq<Job>, init: bool, drain: bool) returns (results: seq<CheckResult>)
    ensures var picked := Select(Group(INIT_GROUP), deps);
            && |results| == |picked| + 1
            && (forall i | 0 <= i < |picked| :: results[i] == RunOne(picked[i], DEADLINE).value)
            && results[|picked|].status == if init then Healthy else Unhealthy
    ensures Code(Startupz, deps, init, drain)
         == if forall r | r in results :: r.status == Healthy then 200 else 503
  {
    hide ServiceJobs, Probed, Select, RunOne;
    results := StartupResults(deps, init, drain);
    ReadyExactly(results, true);
    AggregatesAgree(results);
  }

  /** The startup route passes exactly when initialization is done and whatever
      else is in the init group is healthy; draining plays no part. */
  lemma StartupzExactly(deps: seq<Job>, init: bool, drain: bool)
    ensures Code(Startupz, deps, init, drain)
         == if init && forall d | d in deps && InInit(d) :: RunOne(d, DEADLINE).value.status == Healthy
            then 200 else 503
  {
    hide Code, Select;
    var results := StartupCodeOfResults(deps, init, drain);
    var picked := Select(Group(INIT_GROUP), deps);
    assert results[|picked|] in results;
    if init && forall d | d in deps && InInit(d) :: RunOne(d, DEADLINE).value.status == Healthy {
      forall r | r in results ensures r.status == Healthy {
        var i :| 0 <= i < |results| && results[i] == r;
        if i < |picked| {
          SelectMembers(deps, picked[i]);
        }
      }
    }
    if forall r | r in results :: r.status == Healthy {
      forall d | d in deps && InInit(d) ensures RunOne(d, DEADLINE).value.status == Healthy {
        SelectMembers(deps, d);
        var i :| 0 <= i < |picked| && picked[i] == d;
        assert results[i] in results;
      }
    }
  }

  // ----------------------------------------------------------- registration

  /** The jobs of a probe of the registered checks are those of `ServiceJobs`. */
  lemma RegisteredJobs(redis: bool, deps: seq<Probe>, init: bool, drain: bool)
    requires |deps| == |Dependencies(redis)|
    ensures JobsFor(Dependencies(redis) + [INITIALIZED, DRAINING], deps + FlagProbes(init, drain))
         == ServiceJobs(JobsFor(Dependencies(redis), deps), init, drain)
  {
  }

  function FlagProbes(init: bool, drain: bool): seq<Probe> {
    [Ready(0, InitializedOutcome(init)), Ready(0, DrainingOutcome(drain))]
  }

  // --------------------------------------------------------------------- runs

  /** A request: what its flag checks have read so far and, once answered, how
      the dependencies behaved. */
  datatype Request = Request(route: Route, init: Option<bool>, drain: Option<bool>, deps: Option<seq<Job>>)

  datatype State = State(serving: bool, initialized: bool, draining: bool, requests: seq<Request>)

  const BOOT := State(false, false, false, [])

  /** Program order: the initialized flag is stored before the server starts,
      and the signal handler runs inside the server. */
  datatype Event =
    | StoreInitialized
    | Serve
    | StoreDraining
    | Arrive(route: Route)
    | LoadInitialized(k: nat)
    | LoadDraining(k: nat)
    | Respond(k: nat, deps: seq<Job>)

  function Step(s: State, e: Event): State {
    match e
    case StoreInitialized => if !s.serving then s.(initialized := true) else s
    case Serve => if s.initialized then s.(serving := true) else s
    case StoreDraining => if s.serving then s.(draining := true) else s
    case Arrive(route) =>
      if s.serving then s.(requests := s.requests + [Request(route, None, None, None)]) else s
    case LoadInitialized(k) =>
      if k < |s.requests| && s.requests[k].init == None
      then s.(requests := s.requests[k := s.requests[k].(init := Some(s.initialized))])
      else s
    case LoadDraining(k) =>
      if k < |s.requests| && s.requests[k].drain == None
      then s.(requests := s.requests[k := s.requests[k].(drain := Some(s.draining))])
      else s
    case Respond(k, deps) =>
      if k < |s.requests| && s.requests[k].init.Some? && (s.requests[k].route.Readyz? ==> s.requests[k].drain.Some?)
         && s.requests[k].deps == None
      then s.(requests := s.requests[k := s.requests[k].(deps := Some(deps))])
      else s
  }

  function Run(events: seq<Event>): State
    decreases events
  {
    if events == [] then BOOT else Step(Run(events[..|events| - 1]), events[|events| - 1])
  }

  lemma RunOneMore(events: seq<Event>, e: Event)
    ensures Run(events + [e]) == Step(Run(events), e)
  {
    assert (events + [e])[..|events|] == events;
  }

  predicate Answered(r: Request) {
    r.deps.Some? && r.init.Some? && (r.route.Readyz? ==> r.drain.Some?)
  }

  function Answer(r: Request): nat
    requires Answered(r)
  {
    Code(r.route, r.deps.value, r.init.value, r.drain == Some(true))
  }

  ghost predicate Invariant(s: State) {
    && (s.serving ==> s.initialized) && (s.draining ==> s.serving) && (s.requests != [] ==> s.serving)
    && forall k | 0 <= k < |s.requests| ::
         && s.requests[k].init != Some(false)
         && (s.requests[k].deps.Some? ==> Answered(s.requests[k]))
  }

  lemma {:induction false} RunKeepsInvariant(events: seq<Event>)
    ensures Invariant(Run(events))
    decreases events
  {
    if events == [] {
    } else {
      RunKeepsInvariant(events[..|events| - 1]);
    }
  }

  // -------------------------------------------------- the flags, by the events

  /** The server has been started: after the initialized flag was stored. */
  ghost predicate Serves(events: seq<Event>) {
    exists i, j :: 0 <= i < j < |events| && events[i].StoreInitialized? && events[j].Serve?
  }

  ghost predicate Initialized(events: seq<Event>) {
    exists i :: 0 <= i < |events| && events[i].StoreInitialized?
  }

  /** A signal has reached the running server. */
  ghost predicate Signalled(events: seq<Event>) {
    exists n :: 0 <= n < |events| && events[n].StoreDraining? && Serves(events[..n])
  }

  lemma OneMoreEvent(events: seq<Event>, e: Event)
    ensures Initialized(events + [e]) <==> Initialized(events) || e.StoreInitialized?
    ensures Serves(events + [e]) <==> Serves(events) || (Initialized(events) && e.Serve?)
    ensures Signalled(events + [e]) <==> Signalled(events) || (Serves(events) && e.StoreDraining?)
  {
    var all := events + [e];
    assert forall n | 0 <= n <= |events| :: all[..n] == events[..n];
    assert all[|events|] == e && forall n | 0 <= n < |events| :: all[n] == events[n];
    OneMoreStart(events, e);
    assert all[..|events|] == events;
    if Signalled(events) {
      var n :| 0 <= n < |events| && events[n].StoreDraining? && Serves(events[..n]);
      assert all[n].StoreDraining? && Serves(all[..n]);
    }
    if Serves(events) && e.StoreDraining? {
      assert all[|events|].StoreDraining? && Serves(all[..|events|]);
    }
  }

  lemma OneMoreStart(events: seq<Event>, e: Event)
    ensures Initialized(events + [e]) <==> Initialized(events) || e.StoreInitialized?
    ensures Serves(events + [e]) <==> Serves(events) || (Initialized(events) && e.Serve?)
  {
    var all := events + [e];
    assert all[|events|] == e && forall n | 0 <= n < |events| :: all[n] == events[n];
    if Initialized(events) {
      var i :| 0 <= i < |events| && events[i].StoreInitialized?;
      assert all[i].StoreInitialized?;
      if e.Serve? {
        assert all[|events|].Serve?;
      }
    }
    if Serves(events) {
      var i, j :| 0 <= i < j < |events| && events[i].StoreInitialized? && events[j].Serve?;
      assert all[i].StoreInitialized? && all[j].Serve?;
    }
  }

  /** The flags are what the events made them: initialized and serving once those
      steps have been taken in order, draining once a signal has come since. */
  lemma {:induction false} FlagsExactly(events: seq<Event>)
    ensures Run(events).initialized <==> Initialized(events)
    ensures Run(events).serving <==> Serves(events)
    ensures Run(events).draining <==> Signalled(events)
    decreases events
  {
    hide Initialized, Serves, Signalled;
    if events == [] {
      NothingHappened();
    } else {
      var init, e := events[..|events| - 1], events[|events| - 1];
      FlagsExactly(init);
      RunKeepsInvariant(init);
      OneMoreEvent(init, e);
      assert events == init + [e];
    }
  }

  lemma NothingHappened()
    ensures !Initialized([]) && !Serves([]) && !Signalled([])
  {
  }

  /** A signal to the running server starts the drain, for good. */
  lemma {:induction false} SignalDrains(before: seq<Event>, after: seq<Event>)
    requires Serves(before)
    ensures Run(before + [StoreDraining] + after).draining
  {
    var all := before + [StoreDraining] + after;
    FlagsExactly(all);
    assert all[|before|] == StoreDraining && all[..|before|] == before;
  }

  /** Request k, which has arrived, loads the draining flag. */
  ghost predicate LoadsAt(events: seq<Event>, n: nat, k: nat) {
    n < |events| && events[n] == LoadDraining(k) && k < |Run(events[..n]).requests|
  }

  /** What a request has read of the draining flag is what it was at its first
      load: set exactly if a signal had come by then. */
  ghost predicate ReadAt(events: seq<Event>, n: nat, k: nat, read: bool) {
    LoadsAt(events, n, k) && (forall m: nat | m < n :: !LoadsAt(events, m, k)) && (read <==> Signalled(events[..n]))
  }

  ghost predicate ReadExactly(events: seq<Event>, k: nat, drain: Option<bool>) {
    match drain
    case None => forall n: nat | n < |events| :: !LoadsAt(events, n, k)
    case Some(read) => exists n: nat :: ReadAt(events, n, k, read)
  }

  lemma LoadsInPrefix(events: seq<Event>, e: Event, k: nat)
    ensures forall n: nat | n < |events| :: LoadsAt(events + [e], n, k) <==> LoadsAt(events, n, k)
    ensures LoadsAt(events + [e], |events|, k) <==> e == LoadDraining(k) && k < |Run(events).requests|
    ensures forall n: nat, read: bool | n < |events| :: ReadAt(events, n, k, read) ==> ReadAt(events + [e], n, k, read)
  {
    hide Run, Signalled;
    var all := events + [e];
    assert all[..|events|] == events;
    forall n: nat | n < |events| ensures all[..n] == events[..n] && all[n] == events[n] {
    }
    forall n: nat | n < |events| ensures LoadsAt(all, n, k) <==> LoadsAt(events, n, k) {
      assert all[..n] == events[..n];
    }
  }

  lemma StepReads(s: State, e: Event, k: nat)
    requires k < |Step(s, e).requests|
    ensures k < |s.requests| ==>
              Step(s, e).requests[k].drain
              == if e == LoadDraining(k) && s.requests[k].drain == None then Some(s.draining) else s.requests[k].drain
    ensures k >= |s.requests| ==> Step(s, e).requests[k].drain == None
    ensures |s.requests| <= |Step(s, e).requests|
  {
  }

  lemma {:induction false} DrainReadExactly(events: seq<Event>, k: nat)
    requires k < |Run(events).requests|
    ensures ReadExactly(events, k, Run(events).requests[k].drain)
    decreases events
  {
    hide Step, LoadsAt, Signalled;
    if events == [] {
    } else {
      var init, e := events[..|events| - 1], events[|events| - 1];
      var s := Run(init);
      assert events == init + [e];
      LoadsInPrefix(init, e, k);
      StepReads(s, e, k);
      if k < |s.requests| {
        DrainReadExactly(init, k);
        FlagsExactly(init);
        if s.requests[k].drain == None && e == LoadDraining(k) {
          assert events[..|init|] == init;
          assert ReadAt(events, |init|, k, s.draining);
        } else if s.requests[k].drain.Some? {
          var n: nat :| ReadAt(init, n, k, s.requests[k].drain.value);
          assert n < |init| by {
            ReadIsInside(init, n, k, s.requests[k].drain.value);
          }
          assert ReadAt(events, n, k, s.requests[k].drain.value);
        }
      } else {
        NeverLoaded(init, k);
      }
    }
  }

  lemma ReadIsInside(events: seq<Event>, n: nat, k: nat, read: bool)
    requires ReadAt(events, n, k, read)
    ensures n < |events|
  {
  }

  lemma {:induction false} NeverLoaded(events: seq<Event>, k: nat)
    requires |Run(events).requests| <= k
    ensures forall n: nat | n < |events| :: !LoadsAt(events, n, k)
  {
    forall n: nat | n < |events| ensures !LoadsAt(events, n, k) {
      RequestsStay(events[..n], events[n..]);
      assert events[..n] + events[n..] == events;
    }
  }

  lemma {:induction false} RequestsStay(before: seq<Event>, after: seq<Event>)
    ensures |Run(before).requests| <= |Run(before + after).requests|
    decreases after
  {
    hide Run, Step;
    if after == [] {
      assert before + after == before;
    } else {
      var init, e := after[..|after| - 1], after[|after| - 1];
      RequestsStay(before, init);
      assert before + after == before + init + [e];
      RunOneMore(before + init, e);
      StepKeepsRequests(Run(before + init), e);
    }
  }

  lemma StepKeepsRequests(s: State, e: Event)
    ensures |s.requests| <= |Step(s, e).requests|
  {
  }

  /** A request that loads the flag while no signal has come reads it as clear. */
  lemma {:induction false} EarlyRequestsReadClear(events: seq<Event>, n: nat, k: nat)
    requires LoadsAt(events, n, k) && forall m | 0 <= m < n :: !events[m].StoreDraining?
    ensures k < |Run(events).requests| && Run(events).requests[k].drain == Some(false)
  {
    assert events[..n] + events[n..] == events;
    RequestsStay(events[..n], events[n..]);
    DrainReadExactly(events, k);
    var drain := Run(events).requests[k].drain;
    if drain.Some? {
      var m: nat :| ReadAt(events, m, k, drain.value);
      assert m <= n;
      assert !Signalled(events[..m]);
    }
  }

  /** Flags latch, and a request that arrives after the drain began cannot read
      the flag as clear. */
  lemma {:induction false} LateRequestsSeeDrain(before: seq<Event>, after: seq<Event>)
    requires Run(before).draining
    ensures var s, t := Run(before), Run(before + after);
            && t.draining && t.initialized && |s.requests| <= |t.requests|
            && forall k | |s.requests| <= k < |t.requests| :: t.requests[k].drain != Some(false)
    decreases after
  {
    RunKeepsInvariant(before);
    if after == [] {
      assert before + after == before;
    } else {
      var init := after[..|after| - 1];
      assert (before + after)[..|before + after| - 1] == before + init;
      LateRequestsSeeDrain(before, init);
    }
  }

  /** Once a signal has reached the running server, every readiness probe that
      starts later answers 503, in both modes, whatever else is registered and
      however it behaves. */
  lemma {:induction false} DrainFailsReadiness(before: seq<Event>, after: seq<Event>, k: nat)
    requires Serves(before)
    requires |Run(before).requests| <= k < |Run(before + [StoreDraining] + after).requests|
    requires var r := Run(before + [StoreDraining] + after).requests[k]; r.route.Readyz? && Answered(r)
    ensures Answer(Run(before + [StoreDraining] + after).requests[k]) == 503
  {
    hide Code;
    SignalDrains(before, []);
    assert before + [StoreDraining] + [] == before + [StoreDraining];
    RunOneMore(before, StoreDraining);
    LateRequestsSeeDrain(before + [StoreDraining], after);
    var r := Run(before + [StoreDraining] + after).requests[k];
    assert r.route == Readyz(r.route.degradedFails);
    assert r.drain == Some(r.drain.value) && r.drain.value == true;
    ReadyzExactly(r.deps.value, r.init.value, true, r.route.degradedFails);
  }

  // ------------------------------------------------------ requests, end to end

  /** A request is taken exactly while the server runs. */
  lemma {:induction false} ArrivalsAreTaken(before: seq<Event>, route: Route)
    ensures Run(before + [Arrive(route)]).requests
         == Run(before).requests + if Serves(before) then [Request(route, None, None, None)] else []
  {
    hide Serves;
    RunOneMore(before, Arrive(route));
    FlagsExactly(before);
  }

  function Handled(before: seq<Event>, route: Route, k: nat, deps: seq<Job>): seq<Event> {
    before + [Arrive(route)] + [LoadInitialized(k)] + [LoadDraining(k)] + [Respond(k, deps)]
  }

  /** The newest request after its arrival, its two loads and its answer. */
  lemma HandledRequest(before: seq<Event>, route: Route, deps: seq<Job>)
    requires Serves(before)
    ensures var k := |Run(before).requests|;
            var all := Run(Handled(before, route, k, deps)).requests;
            |all| == k + 1 && all[k] == Request(route, Some(true), Some(Signalled(before)), Some(deps))
  {
    hide Serves, Signalled, Run;
    var k := |Run(before).requests|;
    FlagsExactly(before);
    RunKeepsInvariant(before);
    RunOneMore(before, Arrive(route));
    RunOneMore(before + [Arrive(route)], LoadInitialized(k));
    RunOneMore(before + [Arrive(route)] + [LoadInitialized(k)], LoadDraining(k));
    RunOneMore(before + [Arrive(route)] + [LoadInitialized(k)] + [LoadDraining(k)], Respond(k, deps));
  }

  /** A readiness probe of the running service answers 200 while no signal has
      come and its dependencies are acceptable, else 503. */
  lemma {:induction false} ReadinessEndToEnd(before: seq<Event>, degradedFails: bool, deps: seq<Job>)
    requires Serves(before)
    ensures var k := |Run(before).requests|;
            var all := Run(Handled(before, Readyz(degradedFails), k, deps)).requests;
            && k < |all| && Answered(all[k])
            && Answer(all[k])
            == if !Signalled(before)
                  && forall d | d in deps :: Acceptable(RunOne(d, DEADLINE).value.status, degradedFails)
               then 200 else 503
  {
    hide Serves, Signalled, Run, Code, Handled;
    HandledRequest(before, Readyz(degradedFails), deps);
    ReadyzExactly(deps, true, Signalled(before), degradedFails);
  }

  /** A startup probe of the running service answers 200, drain or not, while the
      rest of the init group is healthy, else 503. */
  lemma {:induction false} StartupEndToEnd(before: seq<Event>, deps: seq<Job>)
    requires Serves(before)
    ensures var k := |Run(before).requests|;
            var all := Run(Handled(before, Startupz, k, deps)).requests;
            && k < |all| && Answered(all[k])
            && Answer(all[k])
            == if forall d | d in deps && InInit(d) :: RunOne(d, DEADLINE).value.status == Healthy then 200 else 503
  {
    hide Serves, Signalled, Run, Code, Handled;
    HandledRequest(before, Startupz, deps);
    StartupzExactly(deps, true, Signalled(before));
  }

  /** An answered startup probe passes exactly when the rest of the init group is
      healthy: requests are served only after initialization, and neither
      draining nor a dependency outside the group can undo it. */
  lemma {:induction false} StartupFollowsInitGroup(events: seq<Event>, k: nat)
    requires k < |Run(events).requests|
    requires var r := Run(events).requests[k]; r.route.Startupz? && Answered(r)
    ensures var r := Run(events).requests[k];
            Answer(r) == 200 <==>
            forall d | d in r.deps.value && InInit(d) :: RunOne(d, DEADLINE).value.status == Healthy
  {
    RunKeepsInvariant(events);
    var r := Run(events).requests[k];
    StartupzExactly(r.deps.value, r.init.value, r.drain == Some(true));
  }

  /** With the dependencies this service registers, the startup probe never
      fails, before or during the drain. */
  lemma {:induction false} StartupNeverFails(events: seq<Event>, k: nat, redis: bool, probes: seq<Probe>)
    requires k < |Run(events).requests| && |probes| == |Dependencies(redis)|
    requires var r := Run(events).requests[k];
             r.route.Startupz? && Answered(r) && r.deps.value == JobsFor(Dependencies(redis), probes)
    ensures Answer(Run(events).requests[k]) == 200
  {
    StartupFollowsInitGroup(events, k);
  }

  /** An answered readiness probe passes exactly when it read the drain flag as
      clear and every dependency was acceptable; initialization is then done. */
  lemma {:induction false} ReadinessMeansNotDraining(events: seq<Event>, k: nat)
    requires k < |Run(events).requests|
    requires var r := Run(events).requests[k]; r.route.Readyz? && Answered(r)
    ensures var r := Run(events).requests[k];
            Answer(r) == 200 <==>
            && r.drain == Some(false)
            && forall d | d in r.deps.value :: Acceptable(RunOne(d, DEADLINE).value.status, r.route.degradedFails)
  {
    RunKeepsInvariant(events);
    var r := Run(events).requests[k];
    assert r.route == Readyz(r.route.degradedFails);
    assert r.init == Some(r.init.value) && r.init.value == true;
    assert r.drain == Some(r.drain.value) && (r.drain.value == true || r.drain.value == false);
    ReadyzExactly(r.deps.value, r.init.value, r.drain == Some(true), r.route.degradedFails);
  }

  // ------------------------------------------------------------- the service

  /** The running example: its registry and its two flags, stored step by step
      and read by their checks in every probe. */
  class Service {
    var initialized: bool
    var draining: bool
    var serving: bool
    const redis: bool
    const registry: HealthRegistry

    ghost predicate Valid()
      reads this, registry
    {
      registry.timeout == DEADLINE && registry.checks == Dependencies(redis) + [INITIALIZED, DRAINING]
    }

    /** The state of the transition system, given the requests so far. */
    ghost function Now(requests: seq<Request>): State
      reads this
    {
      State(serving, initialized, draining, requests)
    }

    /** Registration, in the order of the source. */
    constructor (redis: bool, recorder: Recorder)
      ensures Valid() && fresh(registry) && registry.recorder == recorder && this.redis == redis
      ensures registry.checks
           == [RegisteredCheck("database", None)] + (if redis then [RegisteredCheck("cache", None)] else [])
            + [RegisteredCheck("initialized", Some("init")), RegisteredCheck("draining", None)]
      ensures !initialized && !draining && !serving && Now([]) == BOOT
    {
      var r := new HealthRegistry(DEADLINE, recorder);
      r.AddCheckInner(None, "database");
      if redis {
        r.AddCheckInner(None, "cache");
      }
      r.AddCheckInner(Some(INIT_GROUP), "initialized");
      r.AddCheckInner(None, "draining");
      this.redis, registry := redis, r;
      initialized, draining, serving := false, false, false;
    }

    /** The end of initialization, then `axum::serve`. */
    method Start()
      requires !serving
      modifies this
      ensures initialized && serving && draining == old(draining)
      ensures forall rs: seq<Request> :: Now(rs) == Step(Step(old(Now(rs)), StoreInitialized), Serve)
    {
      initialized := true;
      serving := true;
    }

    /** The signal handler, which runs inside the server. */
    method OnSignal()
      requires serving
      modifies this
      ensures draining && initialized == old(initialized) && serving
      ensures forall rs: seq<Request> :: Now(rs) == Step(old(Now(rs)), StoreDraining)
    {
      draining := true;
    }

    /** `/readyz` with nobody else storing a flag in between; `deps` says how the
        dependencies behave. */
    method AnswerReadyz(deps: seq<Probe>, degradedFails: bool) returns (code: nat)
      requires Valid() && |deps| == |Dependencies(redis)|
      modifies registry.recorder
      ensures code == Code(Readyz(degradedFails), JobsFor(Dependencies(redis), deps), initialized, draining)
    {
      RegisteredJobs(redis, deps, initialized, draining);
      var _ := ServiceResults(JobsFor(Dependencies(redis), deps), initialized, draining);
      var r := registry.CheckReadiness(deps + FlagProbes(initialized, draining));
      code := ReadinessCode(r.value.0, degradedFails);
    }

    /** `/startupz` over the init group. */
    method AnswerStartupz(deps: seq<Probe>) returns (code: nat)
      requires Valid() && |deps| == |Dependencies(redis)|
      ensures code == Code(Startupz, JobsFor(Dependencies(redis), deps), initialized, draining)
    {
      RegisteredJobs(redis, deps, initialized, draining);
      var _ := StartupResults(JobsFor(Dependencies(redis), deps), initialized, draining);
      var r := registry.CheckGroup(INIT_GROUP, deps + FlagProbes(initialized, draining));
      code := StartupCode(AggregateStatus(r.value));
    }
  }
}
