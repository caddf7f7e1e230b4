/** The metrics facade over whole runs of the registry (src/registry.rs): which
    results it counts, and which it does not. */
module FacadeMachine {
  import opened Types
  import opened Checks
  import opened Registry
  import opened RegistryMachine
  import RegistryProgress

  lemma OnlyJoinsEmit(s: State, deadline: nat, e: Event)
    ensures var t := Step(s, deadline, e);
            if e.Join? && CanJoin(s, e.k) && s.sweeps[e.k].target == Everything
            then
              && t.facade == EmitAll(s.facade, s.sweeps[e.k].Results())
              && t.emitted == s.emitted + s.sweeps[e.k].Results()
            else t.facade == s.facade && t.emitted == s.emitted
  {
    hide Polled, Select, EmitAll;
  }

  lemma {:induction false} FacadeFollowsEmissions(deadline: nat, events: seq<Event>)
    ensures Run(deadline, events).facade == EmitAll(SILENT, Run(deadline, events).emitted)
    decreases events
  {
    if events == [] {
    } else {
      var s, e := Run(deadline, events[..|events| - 1]), events[|events| - 1];
      FacadeFollowsEmissions(deadline, events[..|events| - 1]);
      OnlyJoinsEmit(s, deadline, e);
      if e.Join? && CanJoin(s, e.k) {
        EmitAllAppend(SILENT, s.emitted, s.sweeps[e.k].Results());
      }
    }
  }

  // ------------------------------------------------------------------- totals

  /** Results of a finished `check_all`. */
  function FullResults(w: Sweep): nat {
    if w.target == Everything && w.joined.Some? then |w.slots| else 0
  }

  /** Results of a finished `check_all` with the given name and status. */
  function ResultsWith(w: Sweep, name: string, status: HealthStatus): nat {
    if w.target == Everything && w.joined.Some? && w.AllSettled() then CountOf(w.Results(), name, status) else 0
  }

  function Having(name: string, status: HealthStatus): Sweep -> nat {
    w => ResultsWith(w, name, status)
  }

  /** `f` counts nothing before a probe is finished. */
  ghost predicate CountsFinished(f: Sweep -> nat) {
    forall w: Sweep | w.joined == None :: f(w) == 0
  }

  lemma StartKeepsTotal(s: State, deadline: nat, target: Target, probes: seq<Probe>, f: Sweep -> nat)
    requires CountsFinished(f)
    ensures Total(Step(s, deadline, StartSweep(target, probes)).sweeps, f) == Total(s.sweeps, f)
  {
    var t := Step(s, deadline, StartSweep(target, probes));
    if |t.sweeps| > |s.sweeps| {
      assert t.sweeps[..|s.sweeps|] == s.sweeps;
    }
  }

  lemma PollKeepsTotal(s: State, deadline: nat, k: nat, i: nat, f: Sweep -> nat)
    requires CountsFinished(f) && SweepsInvariant(s, deadline)
    ensures Total(PollStep(s, deadline, k, i).sweeps, f) == Total(s.sweeps, f)
  {
    hide PollOnce, Select;
    if k < |s.sweeps| {
      var w := s.sweeps[k];
      var v := Polled(w, deadline, s.now, i);
      assert SweepInvariant(w, deadline, s.entries, s.now);
      if w.joined.Some? && i < |w.slots| {
        assert w.slots[i] in w.slots;
      }
      assert f(v) == f(w);
      ReplacingOne(s.sweeps, k, v, f);
    }
  }

  /** Only the end of a probe adds to a total: what `f` counts in it. */
  lemma StepTotals(s: State, deadline: nat, e: Event, f: Sweep -> nat)
    requires CountsFinished(f) && SweepsInvariant(s, deadline)
    ensures Total(Step(s, deadline, e).sweeps, f)
         == Total(s.sweeps, f)
          + if e.Join? && CanJoin(s, e.k) then f(s.sweeps[e.k].(joined := Some(s.now))) else 0
  {
    hide Polled, Select, EmitAll, Total, SweepsInvariant;
    match e
    case StartSweep(target, probes) => StartKeepsTotal(s, deadline, target, probes, f);
    case Poll(k, i) => PollKeepsTotal(s, deadline, k, i, f);
    case Join(k) =>
      if CanJoin(s, k) {
        ReplacingOne(s.sweeps, k, s.sweeps[k].(joined := Some(s.now)), f);
      }
    case _ =>
  }

  lemma {:induction false} CountOfAppend(a: seq<CheckResult>, b: seq<CheckResult>, name: string, status: HealthStatus)
    ensures CountOf(a + b, name, status) == CountOf(a, name, status) + CountOf(b, name, status)
    decreases b
  {
    if b == [] {
      assert a + b == a;
    } else {
      assert (a + b)[..|a + b| - 1] == a + b[..|b| - 1];
      CountOfAppend(a, b[..|b| - 1], name, status);
    }
  }

  lemma {:induction false} EmissionsAreFullResults(deadline: nat, events: seq<Event>)
    ensures |Run(deadline, events).emitted| == Total(Run(deadline, events).sweeps, FullResults)
    decreases events
  {
    if events == [] {
    } else {
      var s, e := Run(deadline, events[..|events| - 1]), events[|events| - 1];
      EmissionsAreFullResults(deadline, events[..|events| - 1]);
      RunKeepsSweeps(deadline, events[..|events| - 1]);
      OnlyJoinsEmit(s, deadline, e);
      StepTotals(s, deadline, e, FullResults);
    }
  }

  lemma JoinAddsResults(s: State, k: nat, name: string, status: HealthStatus)
    requires CanJoin(s, k)
    ensures Having(name, status)(s.sweeps[k].(joined := Some(s.now)))
         == if s.sweeps[k].target == Everything then CountOf(s.sweeps[k].Results(), name, status) else 0
  {
    var w := s.sweeps[k];
    var v := w.(joined := Some(s.now));
    assert v.AllSettled() && v.Results() == w.Results();
  }

  lemma {:induction false} EmissionsByNameAndStatus(
      deadline: nat, events: seq<Event>, name: string, status: HealthStatus)
    ensures CountOf(Run(deadline, events).emitted, name, status)
         == Total(Run(deadline, events).sweeps, Having(name, status))
    decreases events
  {
    if events == [] {
    } else {
      var s, e := Run(deadline, events[..|events| - 1]), events[|events| - 1];
      EmissionsByNameAndStatus(deadline, events[..|events| - 1], name, status);
      RunKeepsSweeps(deadline, events[..|events| - 1]);
      OnlyJoinsEmit(s, deadline, e);
      StepTotals(s, deadline, e, Having(name, status));
      if e.Join? && CanJoin(s, e.k) {
        JoinAddsResults(s, e.k, name, status);
        CountOfAppend(s.emitted, s.sweeps[e.k].Results(), name, status);
      }
    }
  }

  /** Over any run the counters hold the results of the finished `check_all`
      sweeps and nothing else, name by name and status by status, and a name's
      counters add up to its histogram observations. */
  lemma {:induction false} FacadeConservation(deadline: nat, events: seq<Event>, name: string, status: HealthStatus)
    ensures var s := Run(deadline, events);
            && |s.facade.counters| == Total(s.sweeps, FullResults)
            && s.facade.counters[(name, status)] == Total(s.sweeps, Having(name, status))
            && s.facade.counters[(name, Healthy)] + s.facade.counters[(name, Degraded)]
             + s.facade.counters[(name, Unhealthy)]
            == |Observations(s.facade, name)|
  {
    FacadeFollowsEmissions(deadline, events);
    EmissionsAreFullResults(deadline, events);
    EmissionsByNameAndStatus(deadline, events, name, status);
    EmittedExactly(Run(deadline, events).emitted, name);
  }

  // ------------------------------------------------------- uncounted executions

  function SettledSlots(slots: seq<Option<Settled>>): nat {
    if slots == [] then 0
    else SettledSlots(slots[..|slots| - 1]) + if slots[|slots| - 1].Some? then 1 else 0
  }

  /** Executions of checks: each settled slot of a probe is one, whatever the
      probe's target and whether it has finished or not. */
  function Executions(w: Sweep): nat {
    SettledSlots(w.slots)
  }

  /** Some check ran for a group, or for a `check_all` that has not finished. */
  predicate Uncounted(w: Sweep) {
    (w.target != Everything || w.joined.None?) && exists i :: 0 <= i < |w.slots| && w.slots[i].Some?
  }

  lemma {:induction false} SettledSlotsRange(slots: seq<Option<Settled>>)
    ensures SettledSlots(slots) <= |slots|
    ensures SettledSlots(slots) > 0 <==> exists i :: 0 <= i < |slots| && slots[i].Some?
    ensures (forall i | 0 <= i < |slots| :: slots[i].Some?) ==> SettledSlots(slots) == |slots|
    decreases slots
  {
    if slots == [] {
    } else {
      var init := slots[..|slots| - 1];
      SettledSlotsRange(init);
      if i :| 0 <= i < |slots| && slots[i].Some? {
        assert i < |init| ==> init[i].Some?;
      }
      if i :| 0 <= i < |init| && init[i].Some? {
        assert slots[i].Some?;
      }
    }
  }

  lemma FullResultsOf(w: Sweep)
    requires w.joined.Some? ==> forall i | 0 <= i < |w.slots| :: w.slots[i].Some?
    ensures FullResults(w) <= Executions(w)
    ensures FullResults(w) == Executions(w) <==> !Uncounted(w)
  {
    SettledSlotsRange(w.slots);
  }

  lemma {:induction false} FullResultsFallShort(sweeps: seq<Sweep>)
    requires forall k | 0 <= k < |sweeps| && sweeps[k].joined.Some? ::
               forall i | 0 <= i < |sweeps[k].slots| :: sweeps[k].slots[i].Some?
    ensures Total(sweeps, FullResults) <= Total(sweeps, Executions)
    ensures Total(sweeps, FullResults) == Total(sweeps, Executions) <==>
            forall k | 0 <= k < |sweeps| :: !Uncounted(sweeps[k])
    decreases sweeps
  {
    hide FullResults, Executions, Uncounted;
    if sweeps == [] {
    } else {
      var init, last := sweeps[..|sweeps| - 1], sweeps[|sweeps| - 1];
      FullResultsFallShort(init);
      FullResultsOf(last);
      if k :| 0 <= k < |init| && Uncounted(init[k]) {
        assert Uncounted(sweeps[k]);
      }
    }
  }

  /** The documented counter, incremented per check execution, counts every
      execution of a run exactly when no group probe and no unfinished
      `check_all` has run a check. */
  lemma {:induction false} EveryExecutionCountedExactly(deadline: nat, events: seq<Event>)
    ensures var s := Run(deadline, events);
            |s.facade.counters| == Total(s.sweeps, Executions) <==>
            forall k | 0 <= k < |s.sweeps| :: !Uncounted(s.sweeps[k])
  {
    hide Uncounted, Executions, FullResults, Total;
    FacadeConservation(deadline, events, "", Healthy);
    RunKeepsSweeps(deadline, events);
    var s := Run(deadline, events);
    forall k | 0 <= k < |s.sweeps| && s.sweeps[k].joined.Some?
      ensures forall i | 0 <= i < |s.sweeps[k].slots| :: s.sweeps[k].slots[i].Some?
    {
      assert SweepInvariant(s.sweeps[k], deadline, s.entries, s.now);
    }
    FullResultsFallShort(s.sweeps);
  }

  /** A run with an uncounted execution: one check in a group, probed through it
      as the startup route does. */
  lemma GroupProbeGoesUncounted(deadline: nat, name: string, group: string)
    ensures var events := [AddCheck(RegisteredCheck(name, Some(group)))]
                          + [StartSweep(Group(group), [Ready(0, Result.Ok(Healthy))])] + [Poll(0, 0)] + [Join(0)];
            var s := Run(deadline, events);
            && |s.sweeps| == 1 && s.sweeps[0].joined.Some? && Uncounted(s.sweeps[0])
            && Total(s.sweeps, Executions) == 1 && s.facade == SILENT
  {
    hide Step, Run;
    var check := RegisteredCheck(name, Some(group));
    var w := StartedGroupProbe(deadline, check, group);
    var b := [AddCheck(check)] + [StartSweep(Group(group), [Ready(0, Result.Ok(Healthy))])];
    RunOneMore(deadline, b, Poll(0, 0));
    RunOneMore(deadline, b + [Poll(0, 0)], Join(0));
    GroupProbeEnds(Run(deadline, b), deadline, w, check, group);
  }

  lemma OneExecution(w: Sweep, v: Settled)
    requires w.slots == [Some(v)]
    ensures Total([w], Executions) == 1
  {
    assert w.slots[..0] == [] && [w][..0] == [];
    assert SettledSlots([Some(v)][..0]) == 0;
  }

  /** A probe of one prompt check, from its only poll to its join. */
  lemma GroupProbeEnds(s: State, deadline: nat, w: Sweep, check: RegisteredCheck, group: string)
    requires s.sweeps == [w] && s.now == w.start == 0 && w.target == Group(group)
    requires w.slots == [None] && w.joined == None && w.Jobs() == [Job(check, Ready(0, Result.Ok(Healthy)))]
    ensures var t := Step(Step(s, deadline, Poll(0, 0)), deadline, Join(0));
            && |t.sweeps| == 1 && t.sweeps[0].joined.Some? && Uncounted(t.sweeps[0])
            && Total(t.sweeps, Executions) == 1 && t.facade == s.facade
  {
    hide Select, JobsFor, ChecksOf, EmitAll, Total, Executions;
    var r := CheckResult(check.name, Healthy, None, 0);
    var v := w.(slots := [Some(Settled(0, r))]);
    assert Polled(w, deadline, 0, 0) == v;
    assert Step(s, deadline, Poll(0, 0)).sweeps == [v];
    var sweeps := Step(Step(s, deadline, Poll(0, 0)), deadline, Join(0)).sweeps;
    assert sweeps == [v.(joined := Some(0))];
    assert sweeps[0].slots[0].Some?;
    OneExecution(v.(joined := Some(0)), Settled(0, r));
  }

  lemma StartedGroupProbe(deadline: nat, check: RegisteredCheck, group: string) returns (w: Sweep)
    requires check.group == Some(group)
    ensures w.target == Group(group) && w.start == 0 && w.slots == [None] && w.joined == None
    ensures w.Jobs() == [Job(check, Ready(0, Result.Ok(Healthy)))]
    ensures var s := Run(deadline, [AddCheck(check)] + [StartSweep(Group(group), [Ready(0, Result.Ok(Healthy))])]);
            s.sweeps == [w] && s.now == 0 && s.facade == SILENT
  {
    var probe: Probe := Ready(0, Result.Ok(Healthy));
    assert [] + [AddCheck(check)] == [AddCheck(check)];
    RunOneMore(deadline, [], AddCheck(check));
    RunOneMore(deadline, [AddCheck(check)], StartSweep(Group(group), [probe]));
    var entry := RegistryMachine.Entry(0, check);
    var jobs := JobsFor([check], [probe]);
    assert ChecksOf([entry]) == [check];
    assert jobs == [Job(check, probe)] && jobs[1..] == [];
    assert Select(Group(group), jobs) == [jobs[0]] + Select(Group(group), jobs[1..]) == [jobs[0]];
    w := Run(deadline, [AddCheck(check)] + [StartSweep(Group(group), [probe])]).sweeps[0];
    assert w.snapshot == [entry];
  }

  /** A check that answers at once beside one that hangs, without a deadline. */
  function HungProbe(a: RegisteredCheck, b: RegisteredCheck): seq<Event> {
    [AddCheck(a)] + [AddCheck(b)] + [StartSweep(Everything, [Ready(0, Result.Ok(Healthy)), Never])] + [Poll(0, 0)]
  }

  lemma HungProbeStarts(a: RegisteredCheck, b: RegisteredCheck) returns (w: Sweep)
    ensures w.target == Everything && w.start == 0 && w.slots == [None, None] && w.joined == None
    ensures w.Jobs() == [Job(a, Ready(0, Result.Ok(Healthy))), Job(b, Never)]
    ensures var s := Run(0, HungProbe(a, b)[..3]); s.sweeps == [w] && s.now == 0 && s.facade == SILENT
  {
    var probes: seq<Probe> := [Ready(0, Result.Ok(Healthy)), Never];
    var e := StartSweep(Everything, probes);
    assert HungProbe(a, b)[..3] == [] + [AddCheck(a)] + [AddCheck(b)] + [e];
    RunOneMore(0, [], AddCheck(a));
    RunOneMore(0, [] + [AddCheck(a)], AddCheck(b));
    RunOneMore(0, [] + [AddCheck(a)] + [AddCheck(b)], e);
    var entries := [RegistryMachine.Entry(0, a), RegistryMachine.Entry(1, b)];
    assert ChecksOf(entries) == [a, b];
    assert JobsFor([a, b], probes) == [Job(a, probes[0]), Job(b, probes[1])];
    SelectEverything(JobsFor([a, b], probes));
    w := Run(0, HungProbe(a, b)[..3]).sweeps[0];
    assert w.snapshot == entries;
  }

  /** One check of it has run, and the facade is silent. */
  lemma HungProbeRun(a: RegisteredCheck, b: RegisteredCheck)
    ensures var s := Run(0, HungProbe(a, b));
            && |s.sweeps| == 1 && s.facade == SILENT && Total(s.sweeps, Executions) == 1
            && s.sweeps[0].target == Everything && s.sweeps[0].joined == None
            && s.sweeps[0].slots == [Some(Settled(0, CheckResult(a.name, Healthy, None, 0))), None]
            && !RegistryProgress.AllDue(s.sweeps[0], 0)
  {
    hide Select, JobsFor, ChecksOf, EmitAll;
    var w := HungProbeStarts(a, b);
    var events := HungProbe(a, b);
    assert events == events[..3] + [Poll(0, 0)];
    RunOneMore(0, events[..3], Poll(0, 0));
    var settled := Some(Settled(0, CheckResult(a.name, Healthy, None, 0)));
    var v := w.(slots := [settled, None]);
    assert Polled(w, 0, 0, 0) == v;
    assert Run(0, events).sweeps == [v];
    assert v.slots[..1] == [settled] && [settled][..0] == [] && [v][..0] == [];
    assert SettledSlots(v.slots) == SettledSlots([settled]) == 1;
    assert v.Jobs() == w.Jobs() && Due(v.Jobs()[1], 0) == None;
  }

  /** A settled slot stays settled. */
  lemma SettledStays(s: State, deadline: nat, e: Event, k: nat, i: nat)
    requires k < |s.sweeps| && i < |s.sweeps[k].slots| && s.sweeps[k].slots[i].Some?
    ensures var t := Step(s, deadline, e);
            && k < |t.sweeps| && t.sweeps[k].target == s.sweeps[k].target
            && i < |t.sweeps[k].slots| && t.sweeps[k].slots[i].Some?
  {
    hide PollOnce, Select;
  }

  lemma {:induction false} SettledStaysForever(deadline: nat, before: seq<Event>, after: seq<Event>, k: nat, i: nat)
    requires var s := Run(deadline, before); k < |s.sweeps| && i < |s.sweeps[k].slots| && s.sweeps[k].slots[i].Some?
    ensures var s, t := Run(deadline, before), Run(deadline, before + after);
            && k < |t.sweeps| && t.sweeps[k].target == s.sweeps[k].target
            && i < |t.sweeps[k].slots| && t.sweeps[k].slots[i].Some?
    decreases after
  {
    hide Step;
    if after == [] {
      assert before + after == before;
    } else {
      var init, e := after[..|after| - 1], after[|after| - 1];
      SettledStaysForever(deadline, before, init, k, i);
      assert before + after == before + init + [e];
      RunOneMore(deadline, before + init, e);
      SettledStays(Run(deadline, before + init), deadline, e, k, i);
    }
  }

  /** One hung check keeps its siblings uncounted for good: whatever follows, the
      `check_all` does not finish, and the execution is in no counter. */
  lemma {:induction false} HungSiblingGoesUncounted(a: RegisteredCheck, b: RegisteredCheck, after: seq<Event>)
    ensures var s, t := Run(0, HungProbe(a, b)), Run(0, HungProbe(a, b) + after);
            && s.facade == SILENT && Total(s.sweeps, Executions) == 1
            && |t.sweeps| > 0 && Uncounted(t.sweeps[0]) && t.sweeps[0].joined == None
            && |t.facade.counters| != Total(t.sweeps, Executions)
  {
    hide Step, Run, HungProbe, Total;
    HungProbeRun(a, b);
    RegistryProgress.HungProbeNeverFinishes(0, HungProbe(a, b), after, 0);
    SettledStaysForever(0, HungProbe(a, b), after, 0, 0);
    EveryExecutionCountedExactly(0, HungProbe(a, b) + after);
  }
}
