/** The registry object and the metrics facade it feeds (src/registry.rs). */
module Registry {
  import opened Types
  import opened Checks

  // ------------------------------------------------------------------ facade

  /** What a recorder has accumulated: one counter per (name, status), one
      series of observed durations per name. */
  datatype Facade = Facade(counters: multiset<(string, HealthStatus)>, histograms: map<string, seq<nat>>)

  const SILENT := Facade(multiset{}, map[])

  function Observations(f: Facade, name: string): seq<nat> {
    if name in f.histograms then f.histograms[name] else []
  }

  function Emit(f: Facade, r: CheckResult): Facade {
    Facade(f.counters + multiset{(r.name, r.status)},
           f.histograms[r.name := Observations(f, r.name) + [r.duration]])
  }

  function EmitAll(f: Facade, results: seq<CheckResult>): Facade
    decreases results
  {
    if results == [] then f
    else Emit(EmitAll(f, results[..|results| - 1]), results[|results| - 1])
  }

  function CountOf(results: seq<CheckResult>, name: string, status: HealthStatus): nat {
    if results == [] then 0
    else
      var last := results[|results| - 1];
      CountOf(results[..|results| - 1], name, status) + if last.name == name && last.status == status then 1 else 0
  }

  function DurationsOf(results: seq<CheckResult>, name: string): seq<nat> {
    if results == [] then []
    else
      var last := results[|results| - 1];
      DurationsOf(results[..|results| - 1], name) + if last.name == name then [last.duration] else []
  }

  /** Every counter counts its results, every histogram lists its durations in
      order, and neither gains anything else: in particular a name's counters
      add up to its observations. */
  lemma {:induction false} EmittedExactly(results: seq<CheckResult>, name: string)
    ensures var f := EmitAll(SILENT, results);
            && |f.counters| == |results|
            && (forall s :: f.counters[(name, s)] == CountOf(results, name, s))
            && Observations(f, name) == DurationsOf(results, name)
            && f.counters[(name, Healthy)] + f.counters[(name, Degraded)] + f.counters[(name, Unhealthy)]
            == |Observations(f, name)|
    decreases results
  {
    if results == [] {
    } else {
      EmittedExactly(results[..|results| - 1], name);
    }
  }

  lemma {:induction false} EmitAllAppend(f: Facade, a: seq<CheckResult>, b: seq<CheckResult>)
    ensures EmitAll(f, a + b) == EmitAll(EmitAll(f, a), b)
    decreases b
  {
    if b == [] {
      assert a + b == a;
    } else {
      assert (a + b)[..|a + b| - 1] == a + b[..|b| - 1];
      EmitAllAppend(f, a, b[..|b| - 1]);
    }
  }

  /** The process-wide recorder behind the facade. */
  class Recorder {
    var counters: multiset<(string, HealthStatus)>
    var histograms: map<string, seq<nat>>

    ghost function Value(): Facade
      reads this
    {
      Facade(counters, histograms)
    }

    constructor ()
      ensures Value() == SILENT
    {
      counters, histograms := multiset{}, map[];
    }

    method Record(r: CheckResult)
      modifies this
      ensures Value() == Emit(old(Value()), r)
    {
      counters := counters + multiset{(r.name, r.status)};
      var seen := if r.name in histograms then histograms[r.name] else [];
      histograms := histograms[r.name := seen + [r.duration]];
    }
  }

  // ---------------------------------------------------------------- registry

  function JobsFor(checks: seq<RegisteredCheck>, probes: seq<Probe>): seq<Job>
    requires |checks| == |probes|
  {
    seq(|checks|, i requires 0 <= i < |checks| => Job(checks[i], probes[i]))
  }

  /** `probes` says how each registered check behaves during one sweep; a sweep
      that can hang yields no results. */
  class HealthRegistry {
    var checks: seq<RegisteredCheck>
    const timeout: nat
    const recorder: Recorder

    constructor (timeout: nat, recorder: Recorder)
      ensures checks == [] && this.timeout == timeout && this.recorder == recorder
    {
      checks, this.timeout, this.recorder := [], timeout, recorder;
    }

    method AddCheckInner(group: Option<string>, name: string)
      modifies this
      ensures checks == old(checks) + [RegisteredCheck(name, group)]
    {
      checks := checks + [RegisteredCheck(name, group)];
    }

    method CheckAll(probes: seq<Probe>) returns (r: Future<seq<CheckResult>>)
      requires |probes| == |checks|
      modifies recorder
      ensures r == Probed(Everything, JobsFor(checks, probes), timeout)
      ensures recorder.Value() == if r.Ready? then EmitAll(old(recorder.Value()), r.value) else old(recorder.Value())
    {
      r := JoinAll(RunAll(Select(Everything, JobsFor(checks, probes)), timeout));
      if r.Ready? {
        for i := 0 to |r.value|
          invariant recorder.Value() == EmitAll(old(recorder.Value()), r.value[..i])
        {
          assert r.value[..i + 1][..i] == r.value[..i];
          recorder.Record(r.value[i]);
        }
        assert r.value[..|r.value|] == r.value;
      }
    }

    method CheckGroup(group: string, probes: seq<Probe>) returns (r: Future<seq<CheckResult>>)
      requires |probes| == |checks|
      ensures r == Probed(Group(group), JobsFor(checks, probes), timeout)
    {
      r := JoinAll(RunAll(Select(Group(group), JobsFor(checks, probes)), timeout));
    }

    method CheckReadiness(probes: seq<Probe>) returns (r: Future<(HealthStatus, seq<CheckResult>)>)
      requires |probes| == |checks|
      modifies recorder
      ensures var all := Probed(Everything, JobsFor(checks, probes), timeout);
              && r == (if all.Ready? then Ready(all.at, (Aggregate(all.value), all.value)) else Never)
              && recorder.Value()
              == if all.Ready? then EmitAll(old(recorder.Value()), all.value) else old(recorder.Value())
    {
      var all := CheckAll(probes);
      r := match all case Ready(at, results) => Ready(at, (Aggregate(results), results)) case Never => Never;
    }

    /** Liveness drops the results, but runs and counts them all the same. */
    method CheckLiveness(probes: seq<Probe>) returns (r: Future<HealthStatus>)
      requires |probes| == |checks|
      modifies recorder
      ensures var all := Probed(Everything, JobsFor(checks, probes), timeout);
              && r == (if all.Ready? then Ready(all.at, Aggregate(all.value)) else Never)
              && recorder.Value()
              == if all.Ready? then EmitAll(old(recorder.Value()), all.value) else old(recorder.Value())
    {
      var all := CheckAll(probes);
      r := match all case Ready(at, results) => Ready(at, Aggregate(results)) case Never => Never;
    }
  }
}
