/** The metrics handler in front of a live registry: the scrapes of MetricsCache
    get their results from probes of RegistryMachine, which runs registrations
    and other probes at the same time (src/metrics.rs, src/registry.rs). */
module ScrapedRegistry {
  import opened Types
  import opened Checks
  import opened Prometheus
  import opened Registry
  import R = RegistryMachine
  import P = RegistryProgress
  import C = MetricsCache

  datatype Config = Config(deadline: nat, ttl: nat, secs: AsSecs)

  /** A state is given by the two histories that led to it; `probeOf[j]` is the
      registry's probe behind the j-th missed scrape, once it has begun. */
  datatype State = State(registry: seq<R.Event>, cache: seq<C.Event>, probeOf: map<nat, nat>) {
    function Probes(c: Config): R.State {
      R.Run(c.deadline, registry)
    }

    function Scrapes(c: Config): C.State {
      C.Run(Some(c.ttl), cache)
    }
  }

  const INITIAL := State([], [], map[])

  datatype Event =
    | Pass(d: nat)
    | Elsewhere(e: R.Event)
    | Scrape
    | Begin(j: nat, probes: seq<Probe>)
    | Collect(j: nat)
    | Write(j: nat)

  predicate Finished(w: R.Sweep) {
    w.joined.Some? && w.AllSettled()
  }

  predicate CanCollect(s: State, c: Config, j: nat) {
    && j in s.probeOf && s.probeOf[j] < |s.Probes(c).sweeps|
    && Finished(s.Probes(c).sweeps[s.probeOf[j]])
  }

  function Collected(s: State, c: Config, j: nat): seq<Reading>
    requires CanCollect(s, c, j)
  {
    Readings(s.Probes(c).sweeps[s.probeOf[j]].Results(), c.secs)
  }

  predicate CanBegin(s: State, c: Config, j: nat, probes: seq<Probe>) {
    && j < |s.Scrapes(c).sweeps| && s.Scrapes(c).sweeps[j].phase.Missed?
    && |probes| == |s.Probes(c).entries|
  }

  /** Time is common; a scrape that missed begins a `check_all` and collects its
      results when it has finished. */
  function Step(s: State, c: Config, e: Event): State {
    match e
    case Pass(d) => s.(registry := s.registry + [R.Tick(d)], cache := s.cache + [C.Tick(d)])
    case Elsewhere(e) => if e.Tick? then s else s.(registry := s.registry + [e])
    case Scrape => s.(cache := s.cache + [C.Arrive])
    case Begin(j, probes) =>
      if CanBegin(s, c, j, probes) then
        State(s.registry + [R.StartSweep(Everything, probes)], s.cache + [C.Begin(j)],
              s.probeOf[j := |s.Probes(c).sweeps|])
      else s
    case Collect(j) =>
      if CanCollect(s, c, j) then s.(cache := s.cache + [C.Collect(j, Collected(s, c, j))]) else s
    case Write(j) => s.(cache := s.cache + [C.Write(j)])
  }

  function Run(c: Config, events: seq<Event>): State
    decreases events
  {
    if events == [] then INITIAL else Step(Run(c, events[..|events| - 1]), c, events[|events| - 1])
  }

  // ------------------------------------------------------------------- links

  /** A missed scrape and the probe it began. */
  ghost predicate Link(c: Config, scrape: C.Sweep, probe: R.Sweep) {
    && !scrape.phase.Missed? && scrape.start == probe.start && probe.target == Everything
    && (!scrape.phase.Running? ==> Finished(probe) && scrape.phase.readings == Readings(probe.Results(), c.secs))
  }

  ghost predicate LinkedAt(c: Config, r: R.State, m: C.State, probeOf: map<nat, nat>, j: nat) {
    if j < |m.sweeps| && !m.sweeps[j].phase.Missed?
    then j in probeOf && probeOf[j] < |r.sweeps| && Link(c, m.sweeps[j], r.sweeps[probeOf[j]])
    else j !in probeOf
  }

  ghost predicate Linked(c: Config, r: R.State, m: C.State, probeOf: map<nat, nat>) {
    r.now == m.now && forall j: nat :: LinkedAt(c, r, m, probeOf, j)
  }

  /** What an event does to a probe that has started: nothing once it finished,
      and it finishes now or not at all. */
  ghost predicate Carries(w: R.Sweep, v: R.Sweep, now: nat) {
    && v.start == w.start && v.target == w.target
    && (w.joined.Some? ==> v == w)
    && (w.joined.None? && v.joined.Some? ==> v.joined.value == now)
  }

  lemma FinishedProbesStay(s: R.State, deadline: nat, e: R.Event, k: nat)
    requires R.SweepsInvariant(s, deadline) && k < |s.sweeps|
    ensures k < |R.Step(s, deadline, e).sweeps|
    ensures Carries(s.sweeps[k], R.Step(s, deadline, e).sweeps[k], s.now)
  {
    hide R.PollOnce, Select;
    assert R.SweepInvariant(s.sweeps[k], deadline, s.entries, s.now);
    if e.Poll? && e.k == k && s.sweeps[k].joined.Some? {
      var w := s.sweeps[k];
      if e.i < |w.slots| {
        assert w.slots[e.i] in w.slots;
      }
      assert R.Polled(w, deadline, s.now, e.i) == w;
    }
  }

  lemma NowMoves(s: R.State, deadline: nat, e: R.Event)
    ensures R.Step(s, deadline, e).now == if e.Tick? then s.now + e.d else s.now
  {
  }

  /** Registry events leave every link in place. */
  lemma RegistryKeepsLinks(c: Config, r: R.State, m: C.State, probeOf: map<nat, nat>, e: R.Event)
    requires Linked(c, r, m, probeOf) && R.SweepsInvariant(r, c.deadline) && !e.Tick?
    ensures Linked(c, R.Step(r, c.deadline, e), m, probeOf)
  {
    hide R.Step;
    NowMoves(r, c.deadline, e);
    forall j: nat ensures LinkedAt(c, R.Step(r, c.deadline, e), m, probeOf, j) {
      assert LinkedAt(c, r, m, probeOf, j);
      if j in probeOf {
        FinishedProbesStay(r, c.deadline, e, probeOf[j]);
      }
    }
  }

  lemma PassKeepsLinks(c: Config, r: R.State, m: C.State, probeOf: map<nat, nat>, d: nat)
    requires Linked(c, r, m, probeOf)
    ensures Linked(c, R.Step(r, c.deadline, R.Tick(d)), C.Step(m, Some(c.ttl), C.Tick(d)), probeOf)
  {
    forall j: nat
      ensures LinkedAt(c, R.Step(r, c.deadline, R.Tick(d)), C.Step(m, Some(c.ttl), C.Tick(d)), probeOf, j)
    {
      assert LinkedAt(c, r, m, probeOf, j);
    }
  }

  /** Hits, misses and writes leave every link in place. */
  lemma ScrapeKeepsLinks(c: Config, r: R.State, m: C.State, probeOf: map<nat, nat>, e: C.Event)
    requires Linked(c, r, m, probeOf) && (e.Arrive? || e.Write?)
    ensures Linked(c, r, C.Step(m, Some(c.ttl), e), probeOf)
  {
    hide Render, Finished, Readings;
    forall j: nat ensures LinkedAt(c, r, C.Step(m, Some(c.ttl), e), probeOf, j) {
      assert LinkedAt(c, r, m, probeOf, j);
    }
  }

  lemma NewProbe(s: R.State, deadline: nat, probes: seq<Probe>)
    requires |probes| == |s.entries|
    ensures var t := R.Step(s, deadline, R.StartSweep(Everything, probes));
            && |t.sweeps| == |s.sweeps| + 1 && t.now == s.now
            && (forall k | 0 <= k < |s.sweeps| :: t.sweeps[k] == s.sweeps[k])
            && t.sweeps[|s.sweeps|].start == s.now && t.sweeps[|s.sweeps|].target == Everything
            && t.sweeps[|s.sweeps|].joined == None
  {
  }

  lemma BeginLinks(c: Config, r: R.State, m: C.State, probeOf: map<nat, nat>, k: nat, probes: seq<Probe>)
    requires Linked(c, r, m, probeOf) && k < |m.sweeps| && m.sweeps[k].phase.Missed? && |probes| == |r.entries|
    ensures Linked(c, R.Step(r, c.deadline, R.StartSweep(Everything, probes)), C.Step(m, Some(c.ttl), C.Begin(k)),
                   probeOf[k := |r.sweeps|])
  {
    hide R.Step, Finished, Readings;
    NewProbe(r, c.deadline, probes);
    var t, n := R.Step(r, c.deadline, R.StartSweep(Everything, probes)), C.Step(m, Some(c.ttl), C.Begin(k));
    var more := probeOf[k := |r.sweeps|];
    forall j: nat ensures LinkedAt(c, t, n, more, j) {
      assert LinkedAt(c, r, m, probeOf, j);
    }
  }

  lemma CollectKeepsLinks(c: Config, r: R.State, m: C.State, probeOf: map<nat, nat>, k: nat)
    requires Linked(c, r, m, probeOf) && k in probeOf && probeOf[k] < |r.sweeps| && Finished(r.sweeps[probeOf[k]])
    ensures var e := C.Collect(k, Readings(r.sweeps[probeOf[k]].Results(), c.secs));
            Linked(c, r, C.Step(m, Some(c.ttl), e), probeOf)
  {
    var n := C.Step(m, Some(c.ttl), C.Collect(k, Readings(r.sweeps[probeOf[k]].Results(), c.secs)));
    forall j: nat ensures LinkedAt(c, r, n, probeOf, j) {
      assert LinkedAt(c, r, m, probeOf, j);
    }
  }

  ghost predicate Invariant(s: State, c: Config) {
    Linked(c, s.Probes(c), s.Scrapes(c), s.probeOf)
  }

  lemma StepKeepsInvariant(s: State, c: Config, e: Event)
    requires Invariant(s, c)
    ensures Invariant(Step(s, c, e), c)
  {
    hide R.Run, C.Run, R.Step, C.Step, Linked, CanCollect, CanBegin, Collected;
    var r, m := s.Probes(c), s.Scrapes(c);
    match e
    case Pass(d) =>
      R.RunOneMore(c.deadline, s.registry, R.Tick(d));
      C.RunOneMore(Some(c.ttl), s.cache, C.Tick(d));
      PassKeepsLinks(c, r, m, s.probeOf, d);
    case Elsewhere(e) =>
      if !e.Tick? {
        R.RunOneMore(c.deadline, s.registry, e);
        R.RunKeepsSweeps(c.deadline, s.registry);
        RegistryKeepsLinks(c, r, m, s.probeOf, e);
      }
    case Scrape =>
      C.RunOneMore(Some(c.ttl), s.cache, C.Arrive);
      ScrapeKeepsLinks(c, r, m, s.probeOf, C.Arrive);
    case Begin(j, probes) => BeginKeepsInvariant(s, c, j, probes);
    case Collect(j) => CollectKeepsInvariant(s, c, j);
    case Write(j) =>
      C.RunOneMore(Some(c.ttl), s.cache, C.Write(j));
      ScrapeKeepsLinks(c, r, m, s.probeOf, C.Write(j));
  }

  lemma BeginKeepsInvariant(s: State, c: Config, j: nat, probes: seq<Probe>)
    requires Invariant(s, c)
    ensures Invariant(Step(s, c, Begin(j, probes)), c)
  {
    hide R.Run, C.Run, R.Step, C.Step, Linked;
    if CanBegin(s, c, j, probes) {
      C.RunOneMore(Some(c.ttl), s.cache, C.Begin(j));
      R.RunOneMore(c.deadline, s.registry, R.StartSweep(Everything, probes));
      BeginLinks(c, s.Probes(c), s.Scrapes(c), s.probeOf, j, probes);
    }
  }

  lemma CollectKeepsInvariant(s: State, c: Config, j: nat)
    requires Invariant(s, c)
    ensures Invariant(Step(s, c, Collect(j)), c)
  {
    hide R.Run, C.Run, R.Step, C.Step, Linked;
    if CanCollect(s, c, j) {
      C.RunOneMore(Some(c.ttl), s.cache, C.Collect(j, Collected(s, c, j)));
      CollectKeepsLinks(c, s.Probes(c), s.Scrapes(c), s.probeOf, j);
    }
  }

  lemma {:induction false} RunKeepsInvariant(c: Config, events: seq<Event>)
    ensures Invariant(Run(c, events), c)
    decreases events
  {
    if events == [] {
      NothingLinked(c);
    } else {
      RunKeepsInvariant(c, events[..|events| - 1]);
      StepKeepsInvariant(Run(c, events[..|events| - 1]), c, events[|events| - 1]);
    }
  }

  lemma NothingLinked(c: Config)
    ensures Invariant(INITIAL, c)
  {
    assert forall j: nat :: LinkedAt(c, R.Run(c.deadline, []), C.Run(Some(c.ttl), []), map[], j);
  }

  /** The probe behind a published sweep. */
  lemma PublishedProbe(s: State, c: Config, j: nat)
    requires Invariant(s, c) && j < |s.Scrapes(c).sweeps| && s.Scrapes(c).sweeps[j].phase.Published?
    ensures j in s.probeOf && s.probeOf[j] < |s.Probes(c).sweeps|
    ensures Link(c, s.Scrapes(c).sweeps[j], s.Probes(c).sweeps[s.probeOf[j]])
  {
    assert LinkedAt(c, s.Probes(c), s.Scrapes(c), s.probeOf, j);
  }

  /** Whatever else goes on in the registry, what a scrape gets is byte for byte
      the rendering of the results of one finished `check_all`; from the cache it
      is younger than ttl plus the time from that probe's snapshot to its write,
      on a miss it is that old. */
  lemma {:induction false} ServesOneProbe(c: Config, events: seq<Event>, i: nat)
    requires i < |Run(c, events).Scrapes(c).responses|
    ensures var s := Run(c, events);
            var a := s.Scrapes(c).responses[i];
            && a.sweep in s.probeOf && s.probeOf[a.sweep] < |s.Probes(c).sweeps|
            && a.sweep < |s.Scrapes(c).sweeps| && s.Scrapes(c).sweeps[a.sweep].phase.Published?
            && (var probe, write := s.Probes(c).sweeps[s.probeOf[a.sweep]], s.Scrapes(c).sweeps[a.sweep].phase.at;
                && probe.target == Everything && Finished(probe)
                && a.body == Render(Readings(probe.Results(), c.secs))
                && (if a.cached then a.at - probe.start < c.ttl + (write - probe.start) else a.at == write))
  {
    var s := Run(c, events);
    RunKeepsInvariant(c, events);
    hide Run, Render;
    C.StalenessBound(Some(c.ttl), s.cache, i);
    PublishedProbe(s, c, s.Scrapes(c).responses[i].sweep);
  }

  // ----------------------------------------------------------------- progress

  function Scraped(events: seq<Event>): nat {
    if events == [] then 0 else Scraped(events[..|events| - 1]) + if events[|events| - 1].Scrape? then 1 else 0
  }

  lemma RunOneMore(c: Config, events: seq<Event>, e: Event)
    ensures Run(c, events + [e]) == Step(Run(c, events), c, e)
  {
    assert (events + [e])[..|events|] == events;
  }

  function Passed(events: seq<Event>): nat {
    if events == [] then 0
    else Passed(events[..|events| - 1]) + if events[|events| - 1].Pass? then events[|events| - 1].d else 0
  }

  /** Cache and registry share one clock, which is the time that has passed. */
  lemma {:induction false} TimeIsCommon(c: Config, events: seq<Event>)
    ensures Run(c, events).Probes(c).now == Run(c, events).Scrapes(c).now == Passed(events)
    decreases events
  {
    hide R.Run, C.Run, Run;
    RunKeepsInvariant(c, events);
    if events == [] {
      StartOfTime(c);
    } else {
      var init, e := events[..|events| - 1], events[|events| - 1];
      TimeIsCommon(c, init);
      assert events == init + [e];
      RunOneMore(c, init, e);
      ClockStep(Run(c, init), c, e);
    }
  }

  lemma StartOfTime(c: Config)
    ensures Run(c, []).Probes(c).now == 0
  {
  }

  lemma ClockStep(s: State, c: Config, e: Event)
    ensures Step(s, c, e).Probes(c).now == s.Probes(c).now + if e.Pass? then e.d else 0
  {
    hide R.Run, R.Step, C.Run, CanCollect, Collected;
    match e
    case Pass(d) =>
      R.RunOneMore(c.deadline, s.registry, R.Tick(d));
      NowMoves(s.Probes(c), c.deadline, R.Tick(d));
    case Elsewhere(e) =>
      R.RunOneMore(c.deadline, s.registry, e);
      NowMoves(s.Probes(c), c.deadline, e);
    case Begin(j, probes) =>
      R.RunOneMore(c.deadline, s.registry, R.StartSweep(Everything, probes));
      NowMoves(s.Probes(c), c.deadline, R.StartSweep(Everything, probes));
    case _ =>
  }

  /** Whatever else happens in the registry really happens to the one the scrapes
      probe, and leaves the scrapes alone. */
  lemma {:induction false} RegistryIsShared(c: Config, events: seq<Event>, e: R.Event)
    requires !e.Tick?
    ensures var s, t := Run(c, events), Run(c, events + [Elsewhere(e)]);
            && t.Probes(c) == R.Step(s.Probes(c), c.deadline, e)
            && t.Scrapes(c) == s.Scrapes(c) && t.probeOf == s.probeOf
  {
    hide Run, R.Step;
    RunOneMore(c, events, Elsewhere(e));
    R.RunOneMore(c.deadline, Run(c, events).registry, e);
  }

  lemma OneMoreArrival(events: seq<C.Event>, e: C.Event)
    ensures C.Arrivals(events + [e]) == C.Arrivals(events) + if e.Arrive? then 1 else 0
  {
    assert (events + [e])[..|events|] == events;
  }

  lemma {:induction false} ScrapesArrive(c: Config, events: seq<Event>)
    ensures C.Arrivals(Run(c, events).cache) == Scraped(events)
    decreases events
  {
    hide CanCollect, CanBegin, Collected, C.Arrivals;
    if events == [] {
      NoArrivals();
    } else {
      var s := Run(c, events[..|events| - 1]);
      ScrapesArrive(c, events[..|events| - 1]);
      forall e ensures C.Arrivals(s.cache + [e]) == C.Arrivals(s.cache) + if e.Arrive? then 1 else 0 {
        OneMoreArrival(s.cache, e);
      }
    }
  }

  lemma NoArrivals()
    ensures C.Arrivals([]) == 0
  {
  }

  /** Every scrape of a run has been answered or is still in flight. */
  lemma {:induction false} ScrapesAreAnswered(c: Config, events: seq<Event>)
    ensures var m := Run(c, events).Scrapes(c); |m.responses| + C.InFlight(m.sweeps) == Scraped(events)
  {
    hide Run;
    ScrapesArrive(c, events);
    C.ScrapesAreAccountedFor(Some(c.ttl), Run(c, events).cache);
  }

  /** A missed scrape is never stuck: it begins a probe of the registry as it is... */
  lemma {:induction false} MissBegins(c: Config, events: seq<Event>, j: nat, probes: seq<Probe>)
    requires var s := Run(c, events);
             && j < |s.Scrapes(c).sweeps| && s.Scrapes(c).sweeps[j].phase.Missed?
             && |probes| == |s.Probes(c).entries|
    ensures var s, t := Run(c, events), Run(c, events + [Begin(j, probes)]);
            && j in t.probeOf && t.probeOf[j] < |t.Probes(c).sweeps| && j < |t.Scrapes(c).sweeps|
            && t.Scrapes(c).sweeps[j].phase.Running?
            && (var w := t.Probes(c).sweeps[t.probeOf[j]];
                && w.target == Everything && w.snapshot == s.Probes(c).entries && w.probes == probes
                && w.start == t.Scrapes(c).sweeps[j].start == s.Probes(c).now)
  {
    hide Run, R.Run, C.Run;
    RunKeepsInvariant(c, events);
    var s := Run(c, events);
    RunOneMore(c, events, Begin(j, probes));
    R.RunOneMore(c.deadline, s.registry, R.StartSweep(Everything, probes));
    C.RunOneMore(Some(c.ttl), s.cache, C.Begin(j));
  }

  /** ... once that has finished, it takes its results... */
  lemma {:induction false} MissCollects(c: Config, events: seq<Event>, j: nat)
    requires var s := Run(c, events);
             && j < |s.Scrapes(c).sweeps| && s.Scrapes(c).sweeps[j].phase.Running?
             && j in s.probeOf && s.probeOf[j] < |s.Probes(c).sweeps| && Finished(s.Probes(c).sweeps[s.probeOf[j]])
    ensures var s, t := Run(c, events), Run(c, events + [Collect(j)]);
            && j < |t.Scrapes(c).sweeps|
            && t.Scrapes(c).sweeps[j].phase
            == C.Collected(Readings(s.Probes(c).sweeps[s.probeOf[j]].Results(), c.secs))
  {
    hide Run, R.Run, C.Run;
    var s := Run(c, events);
    RunOneMore(c, events, Collect(j));
    C.RunOneMore(Some(c.ttl), s.cache, C.Collect(j, Collected(s, c, j)));
  }

  /** ... and answers with their rendering. */
  lemma {:induction false} MissAnswers(c: Config, events: seq<Event>, j: nat)
    requires var m := Run(c, events).Scrapes(c); j < |m.sweeps| && m.sweeps[j].phase.Collected?
    ensures var m, n := Run(c, events).Scrapes(c), Run(c, events + [Write(j)]).Scrapes(c);
            n.responses == m.responses + [C.Response(m.now, Render(m.sweeps[j].phase.readings), j, false)]
  {
    hide Run, C.Run, Render;
    RunOneMore(c, events, Write(j));
    C.RunOneMore(Some(c.ttl), Run(c, events).cache, C.Write(j));
  }

  // -------------------------------------------------------------- prompt runs

  /** The scheduler keeps up with the registry and with the scrapes: time does
      not pass between the end of a probe and the write of its rendering. */
  ghost predicate PromptPass(s: State, c: Config, d: nat) {
    && R.PromptTick(s.Probes(c), c.deadline, d)
    && (d > 0 ==> NothingToWrite(s.Probes(c), s.Scrapes(c), s.probeOf))
  }

  ghost predicate NothingToWrite(r: R.State, m: C.State, probeOf: map<nat, nat>) {
    forall j | j in probeOf && j < |m.sweeps| && probeOf[j] < |r.sweeps| && r.sweeps[probeOf[j]].joined.Some? ::
      m.sweeps[j].phase.Published?
  }

  ghost predicate PromptRun(c: Config, events: seq<Event>) {
    forall n | 0 <= n < |events| && events[n].Pass? :: PromptPass(Run(c, events[..n]), c, events[n].d)
  }

  /** A rendering is written the moment its probe has finished. */
  ghost predicate WrittenAtOnce(r: R.State, m: C.State, probeOf: map<nat, nat>) {
    forall j | j in probeOf :: WrittenAt(r, m, probeOf[j], j)
  }

  ghost predicate WrittenAt(r: R.State, m: C.State, k: nat, j: nat) {
    k < |r.sweeps| && j < |m.sweeps| && r.sweeps[k].joined.Some? ==>
      r.sweeps[k].joined.value == if m.sweeps[j].phase.Published? then m.sweeps[j].phase.at else m.now
  }

  ghost predicate PromptInvariant(s: State, c: Config) {
    && Invariant(s, c) && R.PromptRun(c.deadline, s.registry)
    && WrittenAtOnce(s.Probes(c), s.Scrapes(c), s.probeOf)
  }

  lemma RegistryKeepsWritten(c: Config, r: R.State, m: C.State, probeOf: map<nat, nat>, e: R.Event)
    requires Linked(c, r, m, probeOf) && WrittenAtOnce(r, m, probeOf)
    requires R.SweepsInvariant(r, c.deadline) && !e.Tick?
    ensures WrittenAtOnce(R.Step(r, c.deadline, e), m, probeOf)
  {
    hide R.Step;
    forall j | j in probeOf ensures WrittenAt(R.Step(r, c.deadline, e), m, probeOf[j], j) {
      assert LinkedAt(c, r, m, probeOf, j) && WrittenAt(r, m, probeOf[j], j);
      FinishedProbesStay(r, c.deadline, e, probeOf[j]);
    }
  }

  lemma PassKeepsWritten(c: Config, r: R.State, m: C.State, probeOf: map<nat, nat>, d: nat)
    requires WrittenAtOnce(r, m, probeOf) && (d > 0 ==> NothingToWrite(r, m, probeOf))
    ensures WrittenAtOnce(R.Step(r, c.deadline, R.Tick(d)), C.Step(m, Some(c.ttl), C.Tick(d)), probeOf)
  {
    var t, n := R.Step(r, c.deadline, R.Tick(d)), C.Step(m, Some(c.ttl), C.Tick(d));
    forall j | j in probeOf ensures WrittenAt(t, n, probeOf[j], j) {
      assert WrittenAt(r, m, probeOf[j], j);
    }
  }

  lemma BeginKeepsWritten(c: Config, r: R.State, m: C.State, probeOf: map<nat, nat>, k: nat, probes: seq<Probe>)
    requires Linked(c, r, m, probeOf) && WrittenAtOnce(r, m, probeOf)
    requires k < |m.sweeps| && m.sweeps[k].phase.Missed? && |probes| == |r.entries|
    ensures WrittenAtOnce(R.Step(r, c.deadline, R.StartSweep(Everything, probes)), C.Step(m, Some(c.ttl), C.Begin(k)),
                          probeOf[k := |r.sweeps|])
  {
    hide R.Step;
    NewProbe(r, c.deadline, probes);
    var t, n := R.Step(r, c.deadline, R.StartSweep(Everything, probes)), C.Step(m, Some(c.ttl), C.Begin(k));
    var more := probeOf[k := |r.sweeps|];
    forall j | j in more ensures WrittenAt(t, n, more[j], j) {
      if j != k {
        assert LinkedAt(c, r, m, probeOf, j) && WrittenAt(r, m, probeOf[j], j);
      }
    }
  }

  /** Scrape events that leave the registry alone. */
  lemma CacheKeepsWritten(c: Config, r: R.State, m: C.State, probeOf: map<nat, nat>, e: C.Event)
    requires Linked(c, r, m, probeOf) && WrittenAtOnce(r, m, probeOf)
    requires e.Arrive? || e.Collect? || e.Write?
    ensures WrittenAtOnce(r, C.Step(m, Some(c.ttl), e), probeOf)
  {
    hide Render;
    forall j | j in probeOf ensures WrittenAt(r, C.Step(m, Some(c.ttl), e), probeOf[j], j) {
      assert LinkedAt(c, r, m, probeOf, j) && WrittenAt(r, m, probeOf[j], j);
    }
  }

  lemma StepKeepsPromptInvariant(s: State, c: Config, e: Event)
    requires PromptInvariant(s, c) && (e.Pass? ==> PromptPass(s, c, e.d))
    ensures PromptInvariant(Step(s, c, e), c)
  {
    hide R.Run, C.Run, R.Step, C.Step, R.PromptTick, R.PromptRun;
    hide Linked, WrittenAtOnce, NothingToWrite, CanCollect, CanBegin, Collected;
    var r, m := s.Probes(c), s.Scrapes(c);
    StepKeepsInvariant(s, c, e);
    match e
    case Pass(d) =>
      R.RunOneMore(c.deadline, s.registry, R.Tick(d));
      C.RunOneMore(Some(c.ttl), s.cache, C.Tick(d));
      P.PromptExtension(c.deadline, s.registry, R.Tick(d));
      PassKeepsWritten(c, r, m, s.probeOf, d);
    case Elsewhere(e) =>
      if !e.Tick? {
        R.RunOneMore(c.deadline, s.registry, e);
        P.PromptExtension(c.deadline, s.registry, e);
        R.RunKeepsSweeps(c.deadline, s.registry);
        RegistryKeepsWritten(c, r, m, s.probeOf, e);
      }
    case Scrape =>
      C.RunOneMore(Some(c.ttl), s.cache, C.Arrive);
      CacheKeepsWritten(c, r, m, s.probeOf, C.Arrive);
    case Begin(j, probes) => BeginKeepsPrompt(s, c, j, probes);
    case Collect(j) =>
      if CanCollect(s, c, j) {
        C.RunOneMore(Some(c.ttl), s.cache, C.Collect(j, Collected(s, c, j)));
        CacheKeepsWritten(c, r, m, s.probeOf, C.Collect(j, Collected(s, c, j)));
      }
    case Write(j) =>
      C.RunOneMore(Some(c.ttl), s.cache, C.Write(j));
      CacheKeepsWritten(c, r, m, s.probeOf, C.Write(j));
  }

  lemma BeginKeepsPrompt(s: State, c: Config, j: nat, probes: seq<Probe>)
    requires PromptInvariant(s, c)
    ensures PromptInvariant(Step(s, c, Begin(j, probes)), c)
  {
    hide R.Run, C.Run, R.Step, C.Step, R.PromptTick, R.PromptRun, Linked, WrittenAtOnce;
    BeginKeepsInvariant(s, c, j, probes);
    if CanBegin(s, c, j, probes) {
      C.RunOneMore(Some(c.ttl), s.cache, C.Begin(j));
      R.RunOneMore(c.deadline, s.registry, R.StartSweep(Everything, probes));
      P.PromptExtension(c.deadline, s.registry, R.StartSweep(Everything, probes));
      BeginKeepsWritten(c, s.Probes(c), s.Scrapes(c), s.probeOf, j, probes);
    }
  }

  lemma {:induction false} PromptRunKeepsInvariant(c: Config, events: seq<Event>)
    requires PromptRun(c, events)
    ensures PromptInvariant(Run(c, events), c)
    decreases events
  {
    if events == [] {
      NothingLinked(c);
    } else {
      var init := events[..|events| - 1];
      forall n | 0 <= n < |init| && init[n].Pass? ensures PromptPass(Run(c, init[..n]), c, init[n].d) {
        assert init[..n] == events[..n];
      }
      PromptRunKeepsInvariant(c, init);
      StepKeepsPromptInvariant(Run(c, init), c, events[|events| - 1]);
    }
  }

  /** A probe and the concurrent join of its snapshot. */
  ghost predicate JoinsSnapshot(w: R.Sweep, deadline: nat) {
    && w.Shaped() && Finished(w) && w.start <= w.joined.value
    && Probed(w.target, JobsFor(R.ChecksOf(w.snapshot), w.probes), deadline)
    == Ready(w.joined.value - w.start, w.Results())
  }

  lemma PromptProbe(deadline: nat, events: seq<R.Event>, k: nat)
    requires R.PromptRun(deadline, events) && deadline != 0
    requires k < |R.Run(deadline, events).sweeps| && R.Run(deadline, events).sweeps[k].joined.Some?
    ensures JoinsSnapshot(R.Run(deadline, events).sweeps[k], deadline)
    ensures var w := R.Run(deadline, events).sweeps[k]; w.joined.value <= w.start + deadline
  {
    R.PromptSweepRefinesJoin(deadline, events, k);
  }

  lemma WrittenInTime(s: State, c: Config, j: nat)
    requires PromptInvariant(s, c) && c.deadline != 0
    requires j < |s.Scrapes(c).sweeps| && s.Scrapes(c).sweeps[j].phase.Published?
    ensures j in s.probeOf && s.probeOf[j] < |s.Probes(c).sweeps|
    ensures s.Scrapes(c).sweeps[j].phase.at <= s.Probes(c).sweeps[s.probeOf[j]].start + c.deadline
    ensures JoinsSnapshot(s.Probes(c).sweeps[s.probeOf[j]], c.deadline)
  {
    hide R.Run, C.Run, R.PromptRun, JoinsSnapshot;
    PublishedProbe(s, c, j);
    assert WrittenAt(s.Probes(c), s.Scrapes(c), s.probeOf[j], j);
    PromptProbe(c.deadline, s.registry, s.probeOf[j]);
  }

  /** When the scheduler keeps up, the age of what scrapes get is bounded by
      configuration alone: below ttl plus one deadline from the cache, at most one
      deadline on a miss; and it renders the concurrent join of its probe's
      snapshot. */
  lemma {:induction false} PromptStaleness(c: Config, events: seq<Event>, i: nat)
    requires PromptRun(c, events) && c.deadline != 0
    requires i < |Run(c, events).Scrapes(c).responses|
    ensures var s := Run(c, events);
            var a := s.Scrapes(c).responses[i];
            && a.sweep in s.probeOf && s.probeOf[a.sweep] < |s.Probes(c).sweeps|
            && (var probe := s.Probes(c).sweeps[s.probeOf[a.sweep]];
                && probe.target == Everything && JoinsSnapshot(probe, c.deadline)
                && (if a.cached then a.at - probe.start < c.ttl + c.deadline else a.at - probe.start <= c.deadline)
                && a.body == Render(Readings(probe.Results(), c.secs)))
  {
    PromptRunKeepsInvariant(c, events);
    ServesOneProbe(c, events, i);
    hide Run, Render, R.Run, C.Run, Readings, PromptInvariant, Finished;
    var s := Run(c, events);
    WrittenInTime(s, c, s.Scrapes(c).responses[i].sweep);
  }
}
