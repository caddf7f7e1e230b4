/** Probes always finish: a scheduler that keeps up is never stuck, and brings
    every probe with a nonzero deadline to its end (src/registry.rs). */
module RegistryProgress {
  import opened Types
  import opened Checks
  import opened Registry
  import opened RegistryMachine

  function Unsettled(slots: seq<Option<Settled>>): nat {
    if slots == [] then 0
    else Unsettled(slots[..|slots| - 1]) + if slots[|slots| - 1].None? then 1 else 0
  }

  /** What a probe still has to do: settle its slots, then join. */
  function Remaining(w: Sweep): nat {
    Unsettled(w.slots) + if w.joined.None? then 1 else 0
  }

  lemma {:induction false} SettlingOne(slots: seq<Option<Settled>>, i: nat, v: Settled)
    requires i < |slots| && slots[i].None?
    ensures Unsettled(slots[i := Some(v)]) + 1 == Unsettled(slots)
    decreases slots
  {
    var init := slots[..|slots| - 1];
    if i == |init| {
      assert slots[i := Some(v)][..|slots| - 1] == init;
    } else {
      SettlingOne(init, i, v);
      assert slots[i := Some(v)][..|slots| - 1] == init[i := Some(v)];
    }
  }

  lemma PollingHelps(w: Sweep, deadline: nat, now: nat, i: nat)
    requires Polled(w, deadline, now, i) != w
    ensures Remaining(Polled(w, deadline, now, i)) < Remaining(w)
  {
    SettlingOne(w.slots, i, Polled(w, deadline, now, i).slots[i].value);
  }

  /** A poll or a join that changes a probe brings all of them nearer the end. */
  lemma MoveHelps(s: State, deadline: nat, e: Event)
    requires (e.Poll? || e.Join?) && e.k < |s.sweeps| && Step(s, deadline, e).sweeps[e.k] != s.sweeps[e.k]
    ensures Total(Step(s, deadline, e).sweeps, Remaining) < Total(s.sweeps, Remaining)
  {
    hide Polled;
    var w := Step(s, deadline, e).sweeps[e.k];
    if e.Poll? {
      PollingHelps(s.sweeps[e.k], deadline, s.now, e.i);
    }
    ReplacingOne(s.sweeps, e.k, w, Remaining);
  }

  lemma MoveKeepsStarts(s: State, deadline: nat, e: Event)
    requires e.Tick? || e.Poll? || e.Join?
    ensures var t := Step(s, deadline, e);
            && |t.sweeps| == |s.sweeps|
            && (forall k | 0 <= k < |s.sweeps| :: t.sweeps[k].start == s.sweeps[k].start)
            && (if e.Tick? then t.now == s.now + e.d else t.now == s.now)
  {
  }

  lemma PromptExtension(deadline: nat, events: seq<Event>, e: Event)
    requires PromptRun(deadline, events)
    requires e.Tick? ==> PromptTick(Run(deadline, events), deadline, e.d)
    ensures PromptRun(deadline, events + [e])
    ensures Run(deadline, events + [e]) == Step(Run(deadline, events), deadline, e)
  {
    var all := events + [e];
    assert all[..|events|] == events;
    forall n | 0 <= n < |all| && all[n].Tick? ensures PromptTick(Run(deadline, all[..n]), deadline, all[n].d) {
      assert all[..n] == events[..n];
    }
  }

  /** The next prompt event: time if nothing is due, else a poll or a join. */
  lemma NextMove(deadline: nat, events: seq<Event>) returns (e: Event)
    requires PromptRun(deadline, events)
    ensures PromptRun(deadline, events + [e])
    ensures Run(deadline, events + [e]) == Step(Run(deadline, events), deadline, e)
    ensures e == Tick(1)
         || ((e.Poll? || e.Join?)
             && Total(Run(deadline, events + [e]).sweeps, Remaining) < Total(Run(deadline, events).sweeps, Remaining))
  {
    hide Step, MayWait, Total;
    var s := Run(deadline, events);
    if PromptTick(s, deadline, 1) {
      e := Tick(1);
    } else {
      RunKeepsSweeps(deadline, events);
      PromptRunIsOnTime(deadline, events);
      var k :| 0 <= k < |s.sweeps| && s.sweeps[k].joined == None && !MayWait(s.sweeps[k], deadline, s.now, 1);
      assert SweepInvariant(s.sweeps[k], deadline, s.entries, s.now) && OnTime(s.sweeps[k], deadline, s.now);
      e := ImpatientMove(s, deadline, k);
      MoveHelps(s, deadline, e);
    }
    PromptExtension(deadline, events, e);
  }

  /** Every selected check answers at some time, or the deadline cuts it off. */
  ghost predicate AllDue(w: Sweep, deadline: nat) {
    forall i | 0 <= i < |w.Jobs()| :: Due(w.Jobs()[i], deadline).Some?
  }

  /** Time left to the latest end of a probe in progress. */
  function TimeLeft(s: State, deadline: nat, k: nat): nat
    requires k < |s.sweeps|
  {
    var w := s.sweeps[k];
    var end := w.start + Makespan(w, deadline);
    if w.joined.Some? || end < s.now then 0 else end - s.now + 1
  }

  lemma UnfinishedIsBeforeItsEnd(w: Sweep, deadline: nat, now: nat)
    requires OnTime(w, deadline, now) && w.joined == None && AllDue(w, deadline)
    ensures now <= w.start + Makespan(w, deadline)
  {
    SweepMakespan(w.Jobs(), deadline);
    if !w.AllSettled() {
      var i :| 0 <= i < |w.slots| && w.slots[i] == None;
      assert SlotOnTime(w.slots[i], w.Jobs()[i], deadline, w.start, now);
    }
  }

  /** What a probe is about never changes. */
  lemma JobsAreFixed(s: State, deadline: nat, e: Event, k: nat)
    requires k < |s.sweeps|
    ensures var t := Step(s, deadline, e);
            && k < |t.sweeps| && t.sweeps[k].Jobs() == s.sweeps[k].Jobs() && t.sweeps[k].start == s.sweeps[k].start
  {
    hide PollOnce, Select;
  }

  lemma {:induction false} JobsStayFixed(deadline: nat, before: seq<Event>, after: seq<Event>, k: nat)
    requires k < |Run(deadline, before).sweeps|
    ensures var s, t := Run(deadline, before), Run(deadline, before + after);
            k < |t.sweeps| && t.sweeps[k].Jobs() == s.sweeps[k].Jobs()
    decreases after
  {
    hide Step;
    if after == [] {
      assert before + after == before;
    } else {
      var init, e := after[..|after| - 1], after[|after| - 1];
      JobsStayFixed(deadline, before, init, k);
      assert before + after == before + init + [e];
      RunOneMore(deadline, before + init, e);
      JobsAreFixed(Run(deadline, before + init), deadline, e, k);
    }
  }

  lemma OnTimeAt(deadline: nat, events: seq<Event>, k: nat)
    requires PromptRun(deadline, events) && k < |Run(deadline, events).sweeps|
    ensures OnTime(Run(deadline, events).sweeps[k], deadline, Run(deadline, events).now)
  {
    PromptRunIsOnTime(deadline, events);
  }

  /** Every prompt run goes on to a prompt run in which a given probe has
      finished, by polls, joins and the passing of time alone, if only each of
      its checks is due at some time. */
  lemma {:induction false} ProbesFinish(deadline: nat, events: seq<Event>, k: nat) returns (after: seq<Event>)
    requires PromptRun(deadline, events) && k < |Run(deadline, events).sweeps|
    requires AllDue(Run(deadline, events).sweeps[k], deadline)
    ensures PromptRun(deadline, events + after)
    ensures forall e | e in after :: e.Tick? || e.Poll? || e.Join?
    ensures k < |Run(deadline, events + after).sweeps| && Run(deadline, events + after).sweeps[k].joined.Some?
    decreases TimeLeft(Run(deadline, events), deadline, k), Total(Run(deadline, events).sweeps, Remaining)
  {
    hide Step, Run, PromptRun, OnTime, RunAll, JoinAll, Due;
    var s := Run(deadline, events);
    if s.sweeps[k].joined.Some? {
      after := [];
      assert events + after == events;
    } else {
      var e := NextMove(deadline, events);
      MoveKeepsStarts(s, deadline, e);
      JobsAreFixed(s, deadline, e, k);
      OnTimeAt(deadline, events, k);
      UnfinishedIsBeforeItsEnd(s.sweeps[k], deadline, s.now);
      var t := Run(deadline, events + [e]);
      if t.sweeps[k].joined == None {
        OnTimeAt(deadline, events + [e], k);
        UnfinishedIsBeforeItsEnd(t.sweeps[k], deadline, t.now);
      }
      var rest := ProbesFinish(deadline, events + [e], k);
      after := [e] + rest;
      assert events + after == events + [e] + rest;
    }
  }

  lemma SettledIsDue(w: Sweep, deadline: nat, entries: seq<Entry>, now: nat)
    requires SweepInvariant(w, deadline, entries, now) && w.joined.Some?
    ensures AllDue(w, deadline)
  {
    forall i | 0 <= i < |w.Jobs()| ensures Due(w.Jobs()[i], deadline).Some? {
      assert w.slots[i].Some?;
      PollWhenDue(w.Jobs()[i], deadline, w.slots[i].value.at - w.start);
    }
  }

  /** A probe with a check that never answers, and no deadline to cut it off,
      finishes in no run at all. */
  lemma {:induction false} HungProbeNeverFinishes(deadline: nat, before: seq<Event>, after: seq<Event>, k: nat)
    requires k < |Run(deadline, before).sweeps| && !AllDue(Run(deadline, before).sweeps[k], deadline)
    ensures k < |Run(deadline, before + after).sweeps| && Run(deadline, before + after).sweeps[k].joined == None
  {
    JobsStayFixed(deadline, before, after, k);
    RunKeepsSweeps(deadline, before + after);
    var t := Run(deadline, before + after);
    if t.sweeps[k].joined.Some? {
      SettledIsDue(t.sweeps[k], deadline, t.entries, t.now);
    }
  }

  /** A probe can be brought to its end exactly when each of its checks is due at
      some time; a nonzero deadline makes sure of that. */
  lemma {:induction false} ProbesFinishExactly(deadline: nat, events: seq<Event>, k: nat)
    requires PromptRun(deadline, events) && k < |Run(deadline, events).sweeps|
    ensures (exists after: seq<Event> ::
               && PromptRun(deadline, events + after) && k < |Run(deadline, events + after).sweeps|
               && Run(deadline, events + after).sweeps[k].joined.Some?)
            <==> AllDue(Run(deadline, events).sweeps[k], deadline)
    ensures deadline != 0 ==> AllDue(Run(deadline, events).sweeps[k], deadline)
  {
    hide Run, PromptRun;
    if AllDue(Run(deadline, events).sweeps[k], deadline) {
      var after := ProbesFinish(deadline, events, k);
    } else {
      forall after: seq<Event> | k < |Run(deadline, events + after).sweeps|
        ensures Run(deadline, events + after).sweeps[k].joined == None
      {
        HungProbeNeverFinishes(deadline, events, after, k);
      }
    }
  }
}
