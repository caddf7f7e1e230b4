/** The registry under concurrency: registrations, probes, completions and time
    interleave freely (src/registry.rs). Each lock-protected block is one event.
    A run is any list of events; an event that is not enabled changes nothing. */
module RegistryMachine {
  import opened Types
  import opened Checks
  import opened Registry

  /** Every registration call has its own id. */
  datatype Entry = Entry(id: nat, check: RegisteredCheck)

  /** The blocking-pool task of an async registration... */
  datatype TaskState = Queued | Ran | Cancelled

  /** ... and the caller awaiting it, who may drop the await. */
  datatype Caller = Waiting | Gone | Returned(result: Result<(), HealthCheckError>)

  datatype Task = Task(check: RegisteredCheck, state: TaskState, caller: Caller)

  /** One polled-to-completion check of a sweep. */
  datatype Settled = Settled(at: nat, result: CheckResult)

  /** A probe in progress or finished: its registry snapshot, the behaviour of
      the snapshot's checks, and one slot per selected check. */
  datatype Sweep = Sweep(target: Target, start: nat, snapshot: seq<Entry>, probes: seq<Probe>,
                         slots: seq<Option<Settled>>, joined: Option<nat>) {
    ghost predicate Shaped() {
      |probes| == |snapshot| && |slots| == |Jobs()|
    }

    function Jobs(): seq<Job> {
      if |probes| == |snapshot| then Select(target, JobsFor(ChecksOf(snapshot), probes)) else []
    }

    predicate AllSettled() {
      forall s | s in slots :: s.Some?
    }

    function Results(): seq<CheckResult>
      requires AllSettled()
    {
      seq(|slots|, i requires 0 <= i < |slots| => assert slots[i] in slots; slots[i].value.result)
    }
  }

  datatype State = State(
    now: nat,
    entries: seq<Entry>,
    nextId: nat,
    returned: set<nat>,                 // synchronous registrations
    tasks: map<nat, Task>,              // asynchronous registrations
    down: bool,                         // the runtime is shutting down
    sweeps: seq<Sweep>,
    facade: Facade,
    emitted: seq<CheckResult>)          // history: results of completed check_all sweeps

  const INITIAL := State(0, [], 0, {}, map[], false, [], SILENT, [])

  datatype Event =
    | Tick(d: nat)
    | AddCheck(check: RegisteredCheck)
    | SpawnAdd(check: RegisteredCheck)
    | RunTask(id: nat)
    | ShutDown
    | CancelTask(id: nat)
    | Resolve(id: nat)
    | Abandon(id: nat)
    | StartSweep(target: Target, probes: seq<Probe>)
    | Poll(k: nat, i: nat)
    | Join(k: nat)

  function ChecksOf(entries: seq<Entry>): seq<RegisteredCheck> {
    seq(|entries|, i requires 0 <= i < |entries| => entries[i].check)
  }

  /** One poll of `run_one`, `elapsed` after its first: the check's own value
      wins over the deadline however late the poll comes. */
  function PollOnce(job: Job, deadline: nat, elapsed: nat): Option<CheckResult> {
    if job.probe.Ready? && job.probe.at <= elapsed then Some(Fold(job.check.name, job.probe.value, elapsed))
    else if deadline != 0 && deadline <= elapsed then
      Some(Fold(job.check.name, Err(CheckTimedOut(deadline)), elapsed))
    else None
  }

  function Step(s: State, deadline: nat, e: Event): State {
    match e
    case Tick(d) => s.(now := s.now + d)
    case AddCheck(check) =>
      s.(entries := s.entries + [Entry(s.nextId, check)], returned := s.returned + {s.nextId}, nextId := s.nextId + 1)
    case SpawnAdd(check) =>
      s.(tasks := s.tasks[s.nextId := Task(check, Queued, Waiting)], nextId := s.nextId + 1)
    case RunTask(id) =>
      if id in s.tasks && s.tasks[id].state == Queued then
        s.(entries := s.entries + [Entry(id, s.tasks[id].check)], tasks := s.tasks[id := s.tasks[id].(state := Ran)])
      else s
    case ShutDown => s.(down := true)
    case CancelTask(id) =>
      if s.down && id in s.tasks && s.tasks[id].state == Queued
      then s.(tasks := s.tasks[id := s.tasks[id].(state := Cancelled)])
      else s
    case Resolve(id) =>
      if id in s.tasks && s.tasks[id].caller == Waiting && s.tasks[id].state != Queued then
        var result := if s.tasks[id].state == Ran then Result.Ok(()) else Err(ShuttingDown);
        s.(tasks := s.tasks[id := s.tasks[id].(caller := Returned(result))])
      else s
    case Abandon(id) =>
      if id in s.tasks && s.tasks[id].caller == Waiting
      then s.(tasks := s.tasks[id := s.tasks[id].(caller := Gone)])
      else s
    case StartSweep(target, probes) =>
      if |probes| == |s.entries| then
        var n := |Select(target, JobsFor(ChecksOf(s.entries), probes))|;
        s.(sweeps := s.sweeps + [Sweep(target, s.now, s.entries, probes, seq(n, _ => None), None)])
      else s
    case Poll(k, i) => PollStep(s, deadline, k, i)
    case Join(k) => JoinStep(s, k)
  }

  function Polled(w: Sweep, deadline: nat, now: nat, i: nat): Sweep {
    if i < |w.slots| && i < |w.Jobs()| && w.slots[i] == None && w.start <= now then
      match PollOnce(w.Jobs()[i], deadline, now - w.start)
      case Some(r) => w.(slots := w.slots[i := Some(Settled(now, r))])
      case None => w
    else w
  }

  predicate CanJoin(s: State, k: nat) {
    k < |s.sweeps| && s.sweeps[k].joined == None && s.sweeps[k].AllSettled()
  }

  function PollStep(s: State, deadline: nat, k: nat, i: nat): State {
    if k < |s.sweeps| then s.(sweeps := s.sweeps[k := Polled(s.sweeps[k], deadline, s.now, i)]) else s
  }

  /** `join_all` returns once every slot is settled; `check_all` then emits. */
  function JoinStep(s: State, k: nat): State {
    if CanJoin(s, k) then
      var w := s.sweeps[k];
      var t := s.(sweeps := s.sweeps[k := w.(joined := Some(s.now))]);
      if w.target == Everything
      then t.(facade := EmitAll(s.facade, w.Results()), emitted := s.emitted + w.Results())
      else t
    else s
  }

  function Run(deadline: nat, events: seq<Event>): State
    decreases events
  {
    if events == [] then INITIAL
    else Step(Run(deadline, events[..|events| - 1]), deadline, events[|events| - 1])
  }

  lemma RunOneMore(deadline: nat, events: seq<Event>, e: Event)
    ensures Run(deadline, events + [e]) == Step(Run(deadline, events), deadline, e)
  {
    assert (events + [e])[..|events|] == events;
  }

  // ------------------------------------------------------------- registration

  ghost predicate Registered(s: State, id: nat) {
    exists i :: 0 <= i < |s.entries| && s.entries[i].id == id
  }

  /** Every entry has its own id and comes from one registration. */
  ghost predicate EntriesAccounted(s: State) {
    && (forall i, j | 0 <= i < j < |s.entries| :: s.entries[i].id != s.entries[j].id)
    && (forall i | 0 <= i < |s.entries| :: EntryAccounted(s, s.entries[i]))
  }

  /** An entry is a synchronous registration or a task that ran. */
  ghost predicate EntryAccounted(s: State, e: Entry) {
    && e.id < s.nextId
    && (e.id in s.tasks ==> s.tasks[e.id].state == Ran && s.tasks[e.id].check == e.check)
    && (e.id !in s.tasks ==> e.id in s.returned)
  }

  ghost predicate TaskAccounted(s: State, id: nat)
    requires id in s.tasks
  {
    && id < s.nextId && id !in s.returned
    && (s.tasks[id].state == Ran ==> Registered(s, id))
    && (s.tasks[id].state == Cancelled ==> s.down)
    && (s.tasks[id].caller.Returned? ==>
          && s.tasks[id].state != Queued
          && s.tasks[id].caller.result == if s.tasks[id].state == Ran then Result.Ok(()) else Err(ShuttingDown))
  }

  /** A registration call is in the registry exactly when its push happened, and
      then exactly once. */
  ghost predicate RegistryInvariant(s: State) {
    && EntriesAccounted(s)
    && (forall id | id in s.tasks :: TaskAccounted(s, id))
    && (forall id | id in s.returned :: id < s.nextId && Registered(s, id))
  }

  lemma PushKeepsRegistered(s: State, t: State)
    requires s.entries <= t.entries
    ensures forall id | Registered(s, id) :: Registered(t, id)
  {
    forall id | Registered(s, id) ensures Registered(t, id) {
      var i :| 0 <= i < |s.entries| && s.entries[i].id == id;
      assert t.entries[i].id == id;
    }
  }

  lemma AddCheckKeepsRegistry(s: State, deadline: nat, check: RegisteredCheck)
    requires RegistryInvariant(s)
    ensures RegistryInvariant(Step(s, deadline, AddCheck(check)))
  {
    var t := Step(s, deadline, AddCheck(check));
    PushKeepsRegistered(s, t);
    assert t.entries[|s.entries|].id == s.nextId;
    forall i | 0 <= i < |t.entries| ensures EntryAccounted(t, t.entries[i]) {
      if i < |s.entries| {
        assert EntryAccounted(s, s.entries[i]);
      }
    }
    forall id | id in t.tasks ensures TaskAccounted(t, id) {
      assert TaskAccounted(s, id);
    }
  }

  lemma RunTaskKeepsRegistry(s: State, deadline: nat, id: nat)
    requires RegistryInvariant(s)
    ensures RegistryInvariant(Step(s, deadline, RunTask(id)))
  {
    var t := Step(s, deadline, RunTask(id));
    if id in s.tasks && s.tasks[id].state == Queued {
      PushKeepsRegistered(s, t);
      assert t.entries[|s.entries|].id == id;
      forall i | 0 <= i < |t.entries|
        ensures EntryAccounted(t, t.entries[i])
        ensures i < |s.entries| ==> t.entries[i].id != id
      {
        if i < |s.entries| {
          assert EntryAccounted(s, s.entries[i]);
        }
      }
      forall j | j in t.tasks ensures TaskAccounted(t, j) {
        assert TaskAccounted(s, j);
      }
    }
  }

  /** Steps of time and of probes. */
  lemma ProbeStepsKeepRegistry(s: State, deadline: nat, e: Event)
    requires RegistryInvariant(s) && (e.Tick? || e.StartSweep? || e.Poll? || e.Join?)
    ensures RegistryInvariant(Step(s, deadline, e)) && Step(s, deadline, e).entries == s.entries
  {
    hide Polled, Select, EmitAll, CanJoin;
    var t := Step(s, deadline, e);
    assert t.entries == s.entries && t.returned == s.returned && t.tasks == s.tasks;
    assert t.nextId == s.nextId && t.down == s.down;
    PushKeepsRegistered(s, t);
    forall i | 0 <= i < |t.entries| ensures EntryAccounted(t, t.entries[i]) {
      assert EntryAccounted(s, s.entries[i]);
    }
    forall id | id in t.tasks ensures TaskAccounted(t, id) {
      assert TaskAccounted(s, id);
    }
  }

  /** Steps of tasks and their callers that push nothing. */
  lemma TaskStepsKeepRegistry(s: State, deadline: nat, e: Event)
    requires RegistryInvariant(s)
    requires e.SpawnAdd? || e.ShutDown? || e.CancelTask? || e.Resolve? || e.Abandon?
    ensures RegistryInvariant(Step(s, deadline, e)) && Step(s, deadline, e).entries == s.entries
  {
    var t := Step(s, deadline, e);
    assert t.entries == s.entries && t.returned == s.returned;
    PushKeepsRegistered(s, t);
    forall i | 0 <= i < |t.entries| ensures EntryAccounted(t, t.entries[i]) {
      assert EntryAccounted(s, s.entries[i]);
    }
    forall id | id in t.tasks ensures TaskAccounted(t, id) {
      if id in s.tasks {
        assert TaskAccounted(s, id);
      }
    }
  }

  lemma OtherStepsKeepRegistry(s: State, deadline: nat, e: Event)
    requires RegistryInvariant(s) && !e.AddCheck? && !e.RunTask?
    ensures RegistryInvariant(Step(s, deadline, e)) && Step(s, deadline, e).entries == s.entries
  {
    hide Step, RegistryInvariant;
    if e.Tick? || e.StartSweep? || e.Poll? || e.Join? {
      ProbeStepsKeepRegistry(s, deadline, e);
    } else {
      TaskStepsKeepRegistry(s, deadline, e);
    }
  }

  lemma StepKeepsRegistry(s: State, deadline: nat, e: Event)
    requires RegistryInvariant(s)
    ensures RegistryInvariant(Step(s, deadline, e))
    ensures s.entries <= Step(s, deadline, e).entries
  {
    match e
    case AddCheck(check) => AddCheckKeepsRegistry(s, deadline, check);
    case RunTask(id) => RunTaskKeepsRegistry(s, deadline, id);
    case _ => OtherStepsKeepRegistry(s, deadline, e);
  }

  lemma {:induction false} RunKeepsRegistry(deadline: nat, events: seq<Event>)
    ensures RegistryInvariant(Run(deadline, events))
    decreases events
  {
    if events == [] {
    } else {
      RunKeepsRegistry(deadline, events[..|events| - 1]);
      StepKeepsRegistry(Run(deadline, events[..|events| - 1]), deadline, events[|events| - 1]);
    }
  }

  function Occurrences(entries: seq<Entry>, id: nat): nat {
    if entries == [] then 0
    else Occurrences(entries[..|entries| - 1], id) + if entries[|entries| - 1].id == id then 1 else 0
  }

  lemma {:induction false} DistinctOccurrences(entries: seq<Entry>, id: nat)
    requires forall i, j | 0 <= i < j < |entries| :: entries[i].id != entries[j].id
    ensures Occurrences(entries, id) == if exists i :: 0 <= i < |entries| && entries[i].id == id then 1 else 0
    decreases entries
  {
    if entries == [] {
    } else {
      var init := entries[..|entries| - 1];
      DistinctOccurrences(init, id);
      if Occurrences(init, id) == 1 {
        var i :| 0 <= i < |init| && init[i].id == id;
        assert entries[i].id == id;
      }
      if exists i :: 0 <= i < |entries| && entries[i].id == id {
        var i :| 0 <= i < |entries| && entries[i].id == id;
        assert i < |init| ==> init[i].id == id;
      }
    }
  }

  // --------------------------------------------- contents, in lock order

  /** The checks of a run's registration calls, sync and async, in call order:
      the i-th call has id i. */
  function Calls(events: seq<Event>): seq<RegisteredCheck> {
    if events == [] then []
    else
      var e := events[|events| - 1];
      Calls(events[..|events| - 1]) + if e.AddCheck? || e.SpawnAdd? then [e.check] else []
  }

  /** The call whose push the event completes under the write lock, if any. */
  function PushOf(s: State, e: Event): Option<nat> {
    if e.AddCheck? then Some(s.nextId)
    else if e.RunTask? && e.id in s.tasks && s.tasks[e.id].state == Queued then Some(e.id)
    else None
  }

  /** The completed pushes of a run, in lock order. */
  function Pushes(deadline: nat, events: seq<Event>): seq<nat> {
    if events == [] then []
    else
      var p := PushOf(Run(deadline, events[..|events| - 1]), events[|events| - 1]);
      Pushes(deadline, events[..|events| - 1]) + if p.Some? then [p.value] else []
  }

  /** Nothing was pushed but what the calls asked for. */
  ghost predicate AsCalled(s: State, calls: seq<RegisteredCheck>) {
    && s.nextId == |calls|
    && (forall id | id in s.tasks :: id < |calls| && s.tasks[id].check == calls[id])
  }

  ghost predicate Holds(entries: seq<Entry>, calls: seq<RegisteredCheck>, pushes: seq<nat>) {
    && |entries| == |pushes|
    && forall i | 0 <= i < |pushes| :: pushes[i] < |calls| && entries[i] == Entry(pushes[i], calls[pushes[i]])
  }

  lemma StepIsAsCalled(s: State, deadline: nat, e: Event, calls: seq<RegisteredCheck>)
    requires AsCalled(s, calls)
    ensures AsCalled(Step(s, deadline, e), calls + if e.AddCheck? || e.SpawnAdd? then [e.check] else [])
  {
  }

  lemma StepPushes(s: State, deadline: nat, e: Event, calls: seq<RegisteredCheck>)
    requires AsCalled(s, calls)
    ensures var all := calls + if e.AddCheck? || e.SpawnAdd? then [e.check] else [];
            var p := PushOf(s, e);
            && (p.Some? ==> p.value < |all|)
            && Step(s, deadline, e).entries == s.entries + if p.Some? then [Entry(p.value, all[p.value])] else []
  {
  }

  lemma {:induction false} RunIsAsCalled(deadline: nat, events: seq<Event>)
    ensures AsCalled(Run(deadline, events), Calls(events))
    decreases events
  {
    if events == [] {
    } else {
      RunIsAsCalled(deadline, events[..|events| - 1]);
      StepIsAsCalled(Run(deadline, events[..|events| - 1]), deadline, events[|events| - 1],
                     Calls(events[..|events| - 1]));
    }
  }

  /** The registry always holds the completed pushes in lock order, each with
      the check its call gave, sync and async calls mixed. */
  lemma {:induction false} RegistryIsPushesInOrder(deadline: nat, events: seq<Event>)
    ensures Holds(Run(deadline, events).entries, Calls(events), Pushes(deadline, events))
    decreases events
  {
    hide Step, PushOf;
    if events == [] {
    } else {
      var init, e := events[..|events| - 1], events[|events| - 1];
      RegistryIsPushesInOrder(deadline, init);
      RunIsAsCalled(deadline, init);
      StepPushes(Run(deadline, init), deadline, e, Calls(init));
    }
  }

  /** For the caller of an async registration, over every run: Ok means exactly
      one entry was appended, with the caller's check; ShuttingDown means none
      was and the runtime is going down; an abandoned await appends at most one,
      as its task ran or not. A synchronous registration appends exactly one. */
  lemma {:induction false} AsyncRegistrationSafety(deadline: nat, events: seq<Event>, id: nat)
    ensures var s := Run(deadline, events);
            var n := Occurrences(s.entries, id);
            && n <= 1
            && (n == 1 ==> id < |Calls(events)| && Entry(id, Calls(events)[id]) in s.entries)
            && (id in s.returned ==> n == 1)
            && (id in s.tasks ==> id < |Calls(events)| && s.tasks[id].check == Calls(events)[id])
            && (id in s.tasks ==> (n == 1 <==> s.tasks[id].state == Ran))
            && (id in s.tasks && s.tasks[id].caller == Returned(Result.Ok(())) ==> n == 1)
            && (id in s.tasks && s.tasks[id].caller.Returned? && s.tasks[id].caller.result != Result.Ok(()) ==>
                  n == 0 && s.tasks[id].caller.result == Err(ShuttingDown) && s.down)
            && (n == 1 ==> id in s.returned || id in s.tasks)
  {
    RunKeepsRegistry(deadline, events);
    RunIsAsCalled(deadline, events);
    RegistryIsPushesInOrder(deadline, events);
    hide Calls, Pushes;
    var s := Run(deadline, events);
    DistinctOccurrences(s.entries, id);
    if id in s.tasks {
      assert TaskAccounted(s, id);
    }
    if Registered(s, id) {
      var i :| 0 <= i < |s.entries| && s.entries[i].id == id;
      assert EntryAccounted(s, s.entries[i]);
      assert s.entries[i] == Entry(id, Calls(events)[id]);
    }
  }

  /** What a caller was told stays true: later events change neither the reply
      nor, the registry being append-only, the presence of the entry. */
  lemma {:induction false} RepliesAreFinal(deadline: nat, before: seq<Event>, after: seq<Event>, id: nat)
    ensures var s, t := Run(deadline, before), Run(deadline, before + after);
            && s.entries <= t.entries
            && (id in s.returned ==> id in t.returned)
            && (id in s.tasks && s.tasks[id].caller.Returned? ==>
                  id in t.tasks && t.tasks[id].caller == s.tasks[id].caller && t.tasks[id].state == s.tasks[id].state)
    decreases after
  {
    if after == [] {
      assert before + after == before;
    } else {
      var init := after[..|after| - 1];
      assert (before + after)[..|before + after| - 1] == before + init;
      RepliesAreFinal(deadline, before, init, id);
      RunKeepsRegistry(deadline, before + init);
      ReplyStep(Run(deadline, before + init), deadline, after[|after| - 1], id);
    }
  }

  /** A synchronous registration puts its check at the end of the registry it
      finds, for good. */
  lemma {:induction false} AddCheckLands(deadline: nat, before: seq<Event>, check: RegisteredCheck, after: seq<Event>)
    ensures var n := |Run(deadline, before).entries|;
            && n < |Run(deadline, before + [AddCheck(check)] + after).entries|
            && Run(deadline, before + [AddCheck(check)] + after).entries[n].check == check
            && Run(deadline, before + [AddCheck(check)] + after).entries[..n] == Run(deadline, before).entries
  {
    assert (before + [AddCheck(check)])[..|before|] == before;
    RepliesAreFinal(deadline, before + [AddCheck(check)], after, 0);
  }

  lemma ReplyStep(s: State, deadline: nat, e: Event, id: nat)
    requires RegistryInvariant(s)
    ensures var t := Step(s, deadline, e);
            && s.entries <= t.entries
            && (id in s.returned ==> id in t.returned)
            && (id in s.tasks && s.tasks[id].caller.Returned? ==>
                  id in t.tasks && t.tasks[id].caller == s.tasks[id].caller && t.tasks[id].state == s.tasks[id].state)
  {
    hide Polled, Select, EmitAll, CanJoin;
    StepKeepsRegistry(s, deadline, e);
    if id in s.tasks {
      assert TaskAccounted(s, id);
    }
  }

  // ------------------------------------------------------ what a caller gets

  /** A call puts its task in the queue, under the next id. */
  lemma {:induction false} CallQueues(deadline: nat, before: seq<Event>, check: RegisteredCheck)
    ensures var s, t := Run(deadline, before), Run(deadline, before + [SpawnAdd(check)]);
            && t.tasks == s.tasks[|Calls(before)| := Task(check, Queued, Waiting)] && t.entries == s.entries
            && |Calls(before)| !in s.tasks
  {
    RunOneMore(deadline, before, SpawnAdd(check));
    RunIsAsCalled(deadline, before);
  }

  /** A queued task that gets to run appends its caller's entry, whether or not
      the caller still waits, also while the runtime is going down. */
  lemma {:induction false} QueuedTaskRuns(deadline: nat, before: seq<Event>, id: nat)
    requires id in Run(deadline, before).tasks && Run(deadline, before).tasks[id].state == Queued
    ensures var s, t := Run(deadline, before), Run(deadline, before + [RunTask(id)]);
            && id < |Calls(before)| && t.entries == s.entries + [Entry(id, Calls(before)[id])]
            && t.tasks[id] == Task(Calls(before)[id], Ran, s.tasks[id].caller)
  {
    RunOneMore(deadline, before, RunTask(id));
    RunIsAsCalled(deadline, before);
  }

  /** A queued task is cancelled once the runtime goes down, and only then. */
  lemma {:induction false} QueuedTaskCancels(deadline: nat, before: seq<Event>, id: nat)
    requires id in Run(deadline, before).tasks && Run(deadline, before).tasks[id].state == Queued
    ensures Run(deadline, before + [CancelTask(id)]).tasks[id].state == Cancelled <==> Run(deadline, before).down
    ensures var t := Run(deadline, before + [ShutDown] + [CancelTask(id)]);
            id in t.tasks && t.tasks[id].state == Cancelled
    ensures Run(deadline, before + [CancelTask(id)]).entries == Run(deadline, before).entries
  {
    RunOneMore(deadline, before, CancelTask(id));
    RunOneMore(deadline, before, ShutDown);
    RunOneMore(deadline, before + [ShutDown], CancelTask(id));
  }

  /** A caller who waits is answered as soon as the task has run or was cancelled,
      and not before: Ok in the first case, ShuttingDown in the second. */
  lemma {:induction false} ResolveAnswers(deadline: nat, before: seq<Event>, id: nat)
    requires id in Run(deadline, before).tasks && Run(deadline, before).tasks[id].caller == Waiting
    ensures var state, caller := Run(deadline, before).tasks[id].state,
                                 Run(deadline, before + [Resolve(id)]).tasks[id].caller;
            && (caller == Returned(Result.Ok(())) <==> state == Ran)
            && (caller == Returned(Err(ShuttingDown)) <==> state == Cancelled)
            && (caller == Waiting <==> state == Queued)
  {
    RunOneMore(deadline, before, Resolve(id));
  }

  /** A caller who drops the await is never answered, and the task goes on. */
  lemma {:induction false} AbandonedIsGone(deadline: nat, before: seq<Event>, id: nat)
    requires id in Run(deadline, before).tasks && Run(deadline, before).tasks[id].caller == Waiting
    ensures var s, t := Run(deadline, before), Run(deadline, before + [Abandon(id)]);
            t.tasks[id] == s.tasks[id].(caller := Gone) && t.entries == s.entries
    ensures Run(deadline, before + [Abandon(id)] + [Resolve(id)]) == Run(deadline, before + [Abandon(id)])
  {
    RunOneMore(deadline, before, Abandon(id));
    RunOneMore(deadline, before + [Abandon(id)], Resolve(id));
  }

  // ----------------------------------------------------------------- snapshots

  /** A probe begins now, on a snapshot of the registry as it is, with every slot
      open; nothing else begins one. */
  lemma {:induction false} ProbeBegins(deadline: nat, before: seq<Event>, e: Event)
    ensures var s, t := Run(deadline, before), Run(deadline, before + [e]);
            if e.StartSweep? && |e.probes| == |s.entries| then
              && |t.sweeps| == |s.sweeps| + 1
              && (var w := t.sweeps[|s.sweeps|];
                  && w.target == e.target && w.start == s.now && w.snapshot == s.entries && w.joined == None
                  && w.Jobs() == Select(e.target, JobsFor(ChecksOf(s.entries), e.probes))
                  && |w.slots| == |w.Jobs()| && forall i | 0 <= i < |w.slots| :: w.slots[i] == None)
            else |t.sweeps| == |s.sweeps|
  {
    RunOneMore(deadline, before, e);
  }

  /** The clock moves by what a tick says, and by nothing else. */
  lemma {:induction false} ClockMoves(deadline: nat, before: seq<Event>, e: Event)
    ensures Run(deadline, before + [e]).now == Run(deadline, before).now + if e.Tick? then e.d else 0
  {
    RunOneMore(deadline, before, e);
  }

  /** The state of one sweep at instant `now` of a registry holding `entries`. */
  ghost predicate SweepInvariant(w: Sweep, deadline: nat, entries: seq<Entry>, now: nat) {
    && w.Shaped() && w.snapshot <= entries && w.start <= now
    && (forall i | 0 <= i < |w.slots| && w.slots[i].Some? ::
          && w.start <= w.slots[i].value.at <= now
          && PollOnce(w.Jobs()[i], deadline, w.slots[i].value.at - w.start) == Some(w.slots[i].value.result))
    && (w.joined.Some? ==>
          && w.AllSettled() && w.start <= w.joined.value <= now
          && forall i | 0 <= i < |w.slots| :: w.slots[i].Some? && w.slots[i].value.at <= w.joined.value)
  }

  ghost predicate SweepsInvariant(s: State, deadline: nat) {
    && (forall k | 0 <= k < |s.sweeps| :: SweepInvariant(s.sweeps[k], deadline, s.entries, s.now))
    && (forall k, m | 0 <= k <= m < |s.sweeps| :: s.sweeps[k].snapshot <= s.sweeps[m].snapshot)
  }

  lemma PolledKeepsSweep(w: Sweep, deadline: nat, entries: seq<Entry>, now: nat, i: nat)
    requires SweepInvariant(w, deadline, entries, now)
    ensures SweepInvariant(Polled(w, deadline, now, i), deadline, entries, now)
    ensures Polled(w, deadline, now, i).snapshot == w.snapshot
  {
    hide PollOnce, Select, JobsFor, ChecksOf;
    var v := Polled(w, deadline, now, i);
    assert v.Jobs() == w.Jobs();
    if w.joined.Some? && i < |w.slots| {
      assert w.slots[i] in w.slots;
    }
  }

  lemma LaterKeepsSweep(w: Sweep, deadline: nat, entries: seq<Entry>, now: nat, later: seq<Entry>, instant: nat)
    requires SweepInvariant(w, deadline, entries, now) && entries <= later && now <= instant
    ensures SweepInvariant(w, deadline, later, instant)
  {
  }

  /** Steps that touch at most one existing sweep. */
  lemma OneSweepChanges(s: State, t: State, deadline: nat, k: nat)
    requires SweepsInvariant(s, deadline) && s.entries <= t.entries && s.now <= t.now
    requires |t.sweeps| == |s.sweeps|
    requires forall m | 0 <= m < |s.sweeps| && m != k :: t.sweeps[m] == s.sweeps[m]
    requires k < |s.sweeps| ==>
               t.sweeps[k].snapshot == s.sweeps[k].snapshot && SweepInvariant(t.sweeps[k], deadline, t.entries, t.now)
    ensures SweepsInvariant(t, deadline)
  {
    forall m | 0 <= m < |t.sweeps| ensures SweepInvariant(t.sweeps[m], deadline, t.entries, t.now) {
      if m != k {
        LaterKeepsSweep(s.sweeps[m], deadline, s.entries, s.now, t.entries, t.now);
      }
    }
    assert forall m | 0 <= m < |t.sweeps| :: t.sweeps[m].snapshot == s.sweeps[m].snapshot;
  }

  lemma StartKeepsSweeps(s: State, deadline: nat, target: Target, probes: seq<Probe>)
    requires SweepsInvariant(s, deadline)
    ensures SweepsInvariant(Step(s, deadline, StartSweep(target, probes)), deadline)
  {
    hide PollOnce, JobsFor, ChecksOf;
    var t := Step(s, deadline, StartSweep(target, probes));
    forall m | 0 <= m < |t.sweeps| ensures SweepInvariant(t.sweeps[m], deadline, t.entries, t.now) {
      if m < |s.sweeps| {
        LaterKeepsSweep(s.sweeps[m], deadline, s.entries, s.now, t.entries, t.now);
      }
    }
  }

  lemma JoinKeepsSweeps(s: State, deadline: nat, k: nat)
    requires SweepsInvariant(s, deadline)
    ensures SweepsInvariant(JoinStep(s, k), deadline)
  {
    hide PollOnce, Select, EmitAll;
    if CanJoin(s, k) {
      var w := s.sweeps[k];
      assert SweepInvariant(w, deadline, s.entries, s.now);
      var v := w.(joined := Some(s.now));
      assert v.Jobs() == w.Jobs();
      forall i | 0 <= i < |v.slots| ensures v.slots[i].Some? && v.slots[i].value.at <= s.now {
        assert v.slots[i] in w.slots;
      }
      OneSweepChanges(s, JoinStep(s, k), deadline, k);
    }
  }

  lemma StepKeepsSweeps(s: State, deadline: nat, e: Event)
    requires RegistryInvariant(s) && SweepsInvariant(s, deadline)
    ensures SweepsInvariant(Step(s, deadline, e), deadline)
  {
    StepKeepsRegistry(s, deadline, e);
    match e
    case StartSweep(target, probes) => StartKeepsSweeps(s, deadline, target, probes);
    case Poll(k, i) =>
      if k < |s.sweeps| {
        PolledKeepsSweep(s.sweeps[k], deadline, s.entries, s.now, i);
      }
      OneSweepChanges(s, Step(s, deadline, e), deadline, k);
    case Join(k) => JoinKeepsSweeps(s, deadline, k);
    case _ =>
      OneSweepChanges(s, Step(s, deadline, e), deadline, |s.sweeps|);
  }

  lemma {:induction false} RunKeepsSweeps(deadline: nat, events: seq<Event>)
    ensures RegistryInvariant(Run(deadline, events)) && SweepsInvariant(Run(deadline, events), deadline)
    decreases events
  {
    RunKeepsRegistry(deadline, events);
    if events == [] {
    } else {
      RunKeepsSweeps(deadline, events[..|events| - 1]);
      StepKeepsSweeps(Run(deadline, events[..|events| - 1]), deadline, events[|events| - 1]);
    }
  }

  lemma {:induction false} LaterSnapshotsInclude(deadline: nat, before: seq<Event>, after: seq<Event>)
    ensures var s, t := Run(deadline, before), Run(deadline, before + after);
            && |s.sweeps| <= |t.sweeps|
            && forall k | |s.sweeps| <= k < |t.sweeps| :: s.entries <= t.sweeps[k].snapshot
    decreases after
  {
    if after == [] {
      assert before + after == before;
    } else {
      var init := after[..|after| - 1];
      assert (before + after)[..|before + after| - 1] == before + init;
      RepliesAreFinal(deadline, before, init, 0);
      LaterSnapshotsInclude(deadline, before, init);
      SnapshotsAreFrozen(Run(deadline, before + init), deadline, after[|after| - 1]);
    }
  }

  lemma SnapshotsAreFrozen(s: State, deadline: nat, e: Event)
    ensures var t := Step(s, deadline, e);
            && |s.sweeps| <= |t.sweeps|
            && (forall k | 0 <= k < |s.sweeps| :: t.sweeps[k].snapshot == s.sweeps[k].snapshot)
            && (forall k | |s.sweeps| <= k < |t.sweeps| :: t.sweeps[k].snapshot == s.entries)
  {
  }

  /** Snapshots are linearizable: each is a prefix of the append-only registry,
      any two are prefix-comparable in start order, and a probe sees every
      registration whose call had returned before the probe began. */
  lemma {:induction false} SnapshotsLinearize(deadline: nat, before: seq<Event>, after: seq<Event>,
                                              k: nat, m: nat, id: nat)
    requires |Run(deadline, before).sweeps| <= k <= m < |Run(deadline, before + after).sweeps|
    ensures var s, t := Run(deadline, before), Run(deadline, before + after);
            && t.sweeps[k].snapshot <= t.sweeps[m].snapshot <= t.entries
            && (id in s.returned || (id in s.tasks && s.tasks[id].caller == Returned(Result.Ok(()))) ==>
                  Occurrences(t.sweeps[k].snapshot, id) == 1)
  {
    var s, t := Run(deadline, before), Run(deadline, before + after);
    RunKeepsSweeps(deadline, before);
    RunKeepsSweeps(deadline, before + after);
    LaterSnapshotsInclude(deadline, before, after);
    var snapshot := t.sweeps[k].snapshot;
    assert SweepInvariant(t.sweeps[m], deadline, t.entries, t.now);
    assert SweepInvariant(t.sweeps[k], deadline, t.entries, t.now);
    DistinctOccurrences(snapshot, id);
    if id in s.tasks {
      assert TaskAccounted(s, id);
    }
    if Registered(s, id) {
      var i :| 0 <= i < |s.entries| && s.entries[i].id == id;
      assert snapshot[i].id == id;
    }
  }

  /** However late a poll comes, a check that has answered by then is reported as
      it answered, and one that has not only if the deadline has passed. */
  lemma {:induction false} PollReports(job: Job, deadline: nat, elapsed: nat)
    requires PollOnce(job, deadline, elapsed).Some?
    ensures var r := PollOnce(job, deadline, elapsed).value;
            && Reports(r, job, deadline) && r.duration == elapsed
            && (job.probe.Ready? && job.probe.at <= elapsed ==> Carries(r, job.probe.value))
  {
  }

  /** In every interleaving a finished probe has exactly one result per selected
      check of its snapshot, in registration order: the check's own answer if it
      had answered when it was settled, however late, else a timeout. */
  lemma {:induction false} OrderedJoin(deadline: nat, events: seq<Event>, k: nat)
    requires k < |Run(deadline, events).sweeps| && Run(deadline, events).sweeps[k].joined.Some?
    ensures var w := Run(deadline, events).sweeps[k];
            && w.Shaped() && w.AllSettled() && |w.Results()| == |w.Jobs()|
            && forall i | 0 <= i < |w.Jobs()| ::
                 && w.Results()[i].name == w.Jobs()[i].check.name
                 && w.start + w.Results()[i].duration <= w.joined.value
                 && Reports(w.Results()[i], w.Jobs()[i], deadline)
                 && PollOnce(w.Jobs()[i], deadline, w.Results()[i].duration) == Some(w.Results()[i])
  {
    RunKeepsSweeps(deadline, events);
    var s := Run(deadline, events);
    var w := s.sweeps[k];
    assert SweepInvariant(w, deadline, s.entries, s.now);
    forall i | 0 <= i < |w.Jobs()|
      ensures w.Results()[i].name == w.Jobs()[i].check.name
      ensures w.start + w.Results()[i].duration <= w.joined.value
      ensures PollOnce(w.Jobs()[i], deadline, w.Results()[i].duration) == Some(w.Results()[i])
      ensures Reports(w.Results()[i], w.Jobs()[i], deadline)
    {
      assert w.slots[i] in w.slots;
      PollReports(w.Jobs()[i], deadline, w.slots[i].value.at - w.start);
    }
  }

  // --------------------------------------------------------------- timed runs

  /** The scheduler keeps up: time does not pass a settled join, nor the instant
      at which an unsettled slot is due. */
  ghost predicate PromptTick(s: State, deadline: nat, d: nat) {
    forall k | 0 <= k < |s.sweeps| && s.sweeps[k].joined == None :: MayWait(s.sweeps[k], deadline, s.now, d)
  }

  ghost predicate MayWait(w: Sweep, deadline: nat, now: nat, d: nat) {
    && (w.AllSettled() ==> d == 0)
    && forall i | 0 <= i < |w.slots| && i < |w.Jobs()| && w.slots[i] == None && Due(w.Jobs()[i], deadline).Some? ::
         now + d <= w.start + Due(w.Jobs()[i], deadline).value
  }

  ghost predicate PromptRun(deadline: nat, events: seq<Event>) {
    forall n | 0 <= n < |events| && events[n].Tick? :: PromptTick(Run(deadline, events[..n]), deadline, events[n].d)
  }

  ghost predicate SlotOnTime(slot: Option<Settled>, job: Job, deadline: nat, start: nat, now: nat) {
    match slot
    case Some(v) => start <= v.at && Due(job, deadline) == Some(v.at - start)
    case None => Due(job, deadline).Some? ==> now <= start + Due(job, deadline).value
  }

  ghost predicate SlotsOnTime(w: Sweep, deadline: nat, now: nat) {
    w.Shaped() && forall i | 0 <= i < |w.slots| :: SlotOnTime(w.slots[i], w.Jobs()[i], deadline, w.start, now)
  }

  ghost predicate OnTime(w: Sweep, deadline: nat, now: nat) {
    && SlotsOnTime(w, deadline, now)
    && (w.joined == None && w.AllSettled() ==> now <= w.start + Makespan(w, deadline))
    && (w.joined.Some? ==> w.AllSettled() && w.joined.value == w.start + Makespan(w, deadline))
  }

  function Makespan(w: Sweep, deadline: nat): nat {
    match JoinAll(RunAll(w.Jobs(), deadline)) case Ready(at, _) => at case Never => 0
  }

  lemma PollWhenDue(job: Job, deadline: nat, elapsed: nat)
    ensures PollOnce(job, deadline, elapsed).Some? <==> Due(job, deadline).Some? && Due(job, deadline).value <= elapsed
    ensures Due(job, deadline) == Some(elapsed) ==>
              RunOne(job, deadline) == Ready(elapsed, PollOnce(job, deadline, elapsed).value)
  {
  }

  /** A settled sweep has a join, and it lasts as long as its last slot. */
  lemma SettledMakespan(w: Sweep, deadline: nat, now: nat)
    requires SlotsOnTime(w, deadline, now) && w.AllSettled()
    ensures JoinAll(RunAll(w.Jobs(), deadline)).Ready?
    ensures forall i | 0 <= i < |w.slots| :: w.slots[i].Some? && w.slots[i].value.at <= w.start + Makespan(w, deadline)
    ensures w.slots == [] ==> Makespan(w, deadline) == 0
    ensures w.slots != [] ==>
              exists i :: 0 <= i < |w.slots| && w.slots[i].Some?
                     && w.slots[i].value.at == w.start + Makespan(w, deadline)
  {
    SweepMakespan(w.Jobs(), deadline);
    forall i | 0 <= i < |w.slots|
      ensures w.slots[i].Some? && Due(w.Jobs()[i], deadline) == Some(w.slots[i].value.at - w.start)
    {
      assert w.slots[i] in w.slots;
      assert SlotOnTime(w.slots[i], w.Jobs()[i], deadline, w.start, now);
    }
    if w.slots != [] {
      var i :| 0 <= i < |w.Jobs()| && Due(w.Jobs()[i], deadline) == Some(Makespan(w, deadline));
      assert w.slots[i].value.at == w.start + Makespan(w, deadline);
    }
  }

  lemma PolledSlotsOnTime(w: Sweep, deadline: nat, now: nat, i: nat)
    requires SlotsOnTime(w, deadline, now)
    ensures SlotsOnTime(Polled(w, deadline, now, i), deadline, now)
    ensures Polled(w, deadline, now, i) != w ==>
              i < |w.slots| && w.slots[i] == None && Polled(w, deadline, now, i).slots[i].Some?
              && Polled(w, deadline, now, i).slots[i].value.at == now
  {
    hide PollOnce, Select, JobsFor, ChecksOf;
    var v := Polled(w, deadline, now, i);
    assert v.Jobs() == w.Jobs();
    if v != w {
      assert SlotOnTime(w.slots[i], w.Jobs()[i], deadline, w.start, now);
      PollWhenDue(w.Jobs()[i], deadline, now - w.start);
      forall m | 0 <= m < |v.slots| ensures SlotOnTime(v.slots[m], v.Jobs()[m], deadline, v.start, now) {
        if m != i {
          assert SlotOnTime(w.slots[m], w.Jobs()[m], deadline, w.start, now);
        }
      }
    }
  }

  lemma PolledIsOnTime(w: Sweep, deadline: nat, now: nat, i: nat)
    requires OnTime(w, deadline, now)
    ensures OnTime(Polled(w, deadline, now, i), deadline, now)
  {
    var v := Polled(w, deadline, now, i);
    PolledSlotsOnTime(w, deadline, now, i);
    if v != w {
      assert !w.AllSettled() by {
        assert w.slots[i] in w.slots;
      }
      if v.AllSettled() {
        SettledMakespan(v, deadline, now);
      }
    }
  }

  lemma JoinedIsOnTime(w: Sweep, deadline: nat, now: nat)
    requires OnTime(w, deadline, now) && w.joined == None && w.AllSettled()
    requires forall i | 0 <= i < |w.slots| && w.slots[i].Some? :: w.slots[i].value.at <= now
    requires w.start <= now
    ensures OnTime(w.(joined := Some(now)), deadline, now)
  {
    SettledMakespan(w, deadline, now);
    var v := w.(joined := Some(now));
    assert v.Jobs() == w.Jobs();
  }

  lemma TickKeepsOnTime(w: Sweep, deadline: nat, now: nat, d: nat)
    requires OnTime(w, deadline, now)
    requires w.joined == None ==> MayWait(w, deadline, now, d)
    ensures OnTime(w, deadline, now + d)
  {
    forall i | 0 <= i < |w.slots| ensures SlotOnTime(w.slots[i], w.Jobs()[i], deadline, w.start, now + d) {
      assert SlotOnTime(w.slots[i], w.Jobs()[i], deadline, w.start, now);
      assert w.slots[i] in w.slots;
    }
  }

  ghost predicate AllOnTime(s: State, deadline: nat) {
    forall k | 0 <= k < |s.sweeps| :: OnTime(s.sweeps[k], deadline, s.now)
  }

  lemma OthersAreUntouched(s: State, deadline: nat, e: Event, k: nat)
    requires k < |s.sweeps| && !e.Tick? && (e.Poll? ==> e.k != k) && (e.Join? ==> e.k != k || !CanJoin(s, k))
    ensures var t := Step(s, deadline, e); k < |t.sweeps| && t.sweeps[k] == s.sweeps[k] && t.now == s.now
  {
  }

  lemma NewSweepIsOnTime(s: State, deadline: nat, target: Target, probes: seq<Probe>)
    requires |probes| == |s.entries|
    ensures var t := Step(s, deadline, StartSweep(target, probes));
            |t.sweeps| == |s.sweeps| + 1 && t.now == s.now && OnTime(t.sweeps[|s.sweeps|], deadline, t.now)
  {
  }

  lemma OldSweepStaysOnTime(s: State, deadline: nat, e: Event, k: nat)
    requires SweepsInvariant(s, deadline) && k < |s.sweeps| && OnTime(s.sweeps[k], deadline, s.now)
    requires e.Tick? ==> PromptTick(s, deadline, e.d)
    ensures k < |Step(s, deadline, e).sweeps|
    ensures OnTime(Step(s, deadline, e).sweeps[k], deadline, Step(s, deadline, e).now)
  {
    var w := s.sweeps[k];
    if e.Tick? {
      TickKeepsOnTime(w, deadline, s.now, e.d);
    } else if e.Poll? && e.k == k {
      PolledIsOnTime(w, deadline, s.now, e.i);
    } else if e.Join? && e.k == k && CanJoin(s, k) {
      assert SweepInvariant(w, deadline, s.entries, s.now);
      JoinedIsOnTime(w, deadline, s.now);
    } else {
      OthersAreUntouched(s, deadline, e, k);
    }
  }

  lemma StepKeepsOnTime(s: State, deadline: nat, e: Event)
    requires SweepsInvariant(s, deadline) && AllOnTime(s, deadline)
    requires e.Tick? ==> PromptTick(s, deadline, e.d)
    ensures AllOnTime(Step(s, deadline, e), deadline)
  {
    var t := Step(s, deadline, e);
    forall k | 0 <= k < |t.sweeps| ensures OnTime(t.sweeps[k], deadline, t.now) {
      if k < |s.sweeps| {
        OldSweepStaysOnTime(s, deadline, e, k);
      } else {
        NewSweepIsOnTime(s, deadline, e.target, e.probes);
      }
    }
  }

  lemma {:induction false} PromptRunIsOnTime(deadline: nat, events: seq<Event>)
    requires PromptRun(deadline, events)
    ensures AllOnTime(Run(deadline, events), deadline)
    decreases events
  {
    if events == [] {
    } else {
      var init := events[..|events| - 1];
      assert PromptRun(deadline, init) by {
        forall n | 0 <= n < |init| && init[n].Tick? ensures PromptTick(Run(deadline, init[..n]), deadline, init[n].d) {
          assert init[..n] == events[..n];
        }
      }
      PromptRunIsOnTime(deadline, init);
      RunKeepsSweeps(deadline, init);
      StepKeepsOnTime(Run(deadline, init), deadline, events[|events| - 1]);
    }
  }

  lemma JoinedResults(w: Sweep, deadline: nat, entries: seq<Entry>, now: nat)
    requires SweepInvariant(w, deadline, entries, now) && OnTime(w, deadline, now) && w.joined.Some?
    ensures w.start <= w.joined.value && w.AllSettled()
    ensures JoinAll(RunAll(w.Jobs(), deadline)) == Ready(w.joined.value - w.start, w.Results())
  {
    hide PollOnce, RunOne, Due, Select, JobsFor, ChecksOf;
    SettledMakespan(w, deadline, now);
    SweepMakespan(w.Jobs(), deadline);
    var join := JoinAll(RunAll(w.Jobs(), deadline));
    forall i | 0 <= i < |w.Jobs()| ensures join.value[i] == w.Results()[i] {
      assert w.slots[i] in w.slots;
      assert SlotOnTime(w.slots[i], w.Jobs()[i], deadline, w.start, now);
      PollWhenDue(w.Jobs()[i], deadline, w.slots[i].value.at - w.start);
    }
    assert join.value == w.Results();
  }

  /** When the scheduler keeps up, every interleaving gives a finished probe the
      same results at the same instant: those of the concurrent join of its own
      snapshot. Sweeps are confluent, and other checks, probes and registrations
      in progress make no difference. */
  lemma {:induction false} PromptSweepRefinesJoin(deadline: nat, events: seq<Event>, k: nat)
    requires PromptRun(deadline, events)
    requires k < |Run(deadline, events).sweeps| && Run(deadline, events).sweeps[k].joined.Some?
    ensures var w := Run(deadline, events).sweeps[k];
            && w.Shaped() && w.AllSettled() && w.start <= w.joined.value
            && Probed(w.target, JobsFor(ChecksOf(w.snapshot), w.probes), deadline)
            == Ready(w.joined.value - w.start, w.Results())
            && (deadline != 0 ==> w.joined.value - w.start <= deadline)
  {
    RunKeepsSweeps(deadline, events);
    PromptRunIsOnTime(deadline, events);
    var s := Run(deadline, events);
    JoinedResults(s.sweeps[k], deadline, s.entries, s.now);
    SweepMakespan(s.sweeps[k].Jobs(), deadline);
  }

  /** Two prompt runs that give the same snapshot the same behaviour agree. */
  lemma {:induction false} Confluence(deadline: nat, a: seq<Event>, b: seq<Event>, j: nat, k: nat)
    requires PromptRun(deadline, a) && PromptRun(deadline, b)
    requires j < |Run(deadline, a).sweeps| && k < |Run(deadline, b).sweeps|
    requires var v, w := Run(deadline, a).sweeps[j], Run(deadline, b).sweeps[k];
             && v.joined.Some? && w.joined.Some? && v.target == w.target && v.probes == w.probes
             && ChecksOf(v.snapshot) == ChecksOf(w.snapshot)
    ensures var v, w := Run(deadline, a).sweeps[j], Run(deadline, b).sweeps[k];
            v.AllSettled() && w.AllSettled() && v.Results() == w.Results()
            && v.joined.value - v.start == w.joined.value - w.start
  {
    PromptSweepRefinesJoin(deadline, a, j);
    PromptSweepRefinesJoin(deadline, b, k);
  }

  lemma UnfinishedIsYoung(w: Sweep, deadline: nat, now: nat)
    requires OnTime(w, deadline, now) && w.joined == None && deadline != 0
    ensures now <= w.start + deadline
  {
    if w.AllSettled() {
      SweepMakespan(w.Jobs(), deadline);
    } else {
      var i :| 0 <= i < |w.slots| && w.slots[i] == None;
      assert SlotOnTime(w.slots[i], w.Jobs()[i], deadline, w.start, now);
    }
  }

  /** No hung dependency holds a sweep beyond its deadline: in a prompt run a
      probe still in progress is never older than one nonzero deadline. */
  lemma {:induction false} SweepsEndWithinDeadline(deadline: nat, events: seq<Event>, k: nat)
    requires PromptRun(deadline, events) && deadline != 0
    requires k < |Run(deadline, events).sweeps| && Run(deadline, events).sweeps[k].joined == None
    ensures Run(deadline, events).now <= Run(deadline, events).sweeps[k].start + deadline
  {
    PromptRunIsOnTime(deadline, events);
    UnfinishedIsYoung(Run(deadline, events).sweeps[k], deadline, Run(deadline, events).now);
  }

  lemma ImpatientSweepMoves(w: Sweep, deadline: nat, now: nat) returns (i: nat)
    requires SlotsOnTime(w, deadline, now) && w.start <= now && !MayWait(w, deadline, now, 1) && !w.AllSettled()
    ensures Polled(w, deadline, now, i) != w
  {
    i :| 0 <= i < |w.slots| && w.slots[i] == None && Due(w.Jobs()[i], deadline).Some?
         && now + 1 > w.start + Due(w.Jobs()[i], deadline).value;
    PollWhenDue(w.Jobs()[i], deadline, now - w.start);
    assert Polled(w, deadline, now, i).slots[i].Some?;
  }

  lemma ImpatientMove(s: State, deadline: nat, k: nat) returns (e: Event)
    requires k < |s.sweeps| && s.sweeps[k].joined == None && s.sweeps[k].start <= s.now
    requires SlotsOnTime(s.sweeps[k], deadline, s.now) && !MayWait(s.sweeps[k], deadline, s.now, 1)
    ensures (e.Poll? || e.Join?) && e.k == k
    ensures Step(s, deadline, e).sweeps[k] != s.sweeps[k]
  {
    if s.sweeps[k].AllSettled() {
      e := Join(k);
      assert CanJoin(s, k);
      assert JoinStep(s, k).sweeps[k].joined == Some(s.now);
    } else {
      var i := ImpatientSweepMoves(s.sweeps[k], deadline, s.now);
      e := Poll(k, i);
      assert PollStep(s, deadline, k, i).sweeps[k] == Polled(s.sweeps[k], deadline, s.now, i);
    }
  }

  /** Promptness never stops the clock for good: if a tick of one is not allowed
      then some poll or join makes progress right now. */
  lemma {:induction false} PromptnessNeverBlocks(deadline: nat, events: seq<Event>)
    requires PromptRun(deadline, events)
    ensures var s := Run(deadline, events);
            PromptTick(s, deadline, 1) || exists e: Event :: (e.Poll? || e.Join?) && Step(s, deadline, e) != s
  {
    RunKeepsSweeps(deadline, events);
    PromptRunIsOnTime(deadline, events);
    var s := Run(deadline, events);
    if !PromptTick(s, deadline, 1) {
      var k :| 0 <= k < |s.sweeps| && s.sweeps[k].joined == None && !MayWait(s.sweeps[k], deadline, s.now, 1);
      assert SweepInvariant(s.sweeps[k], deadline, s.entries, s.now) && OnTime(s.sweeps[k], deadline, s.now);
      var e := ImpatientMove(s, deadline, k);
      assert Step(s, deadline, e) != s;
    }
  }

  // ---------------------------------------------------- sums over the probes

  function Total(sweeps: seq<Sweep>, f: Sweep -> nat): nat {
    if sweeps == [] then 0 else Total(sweeps[..|sweeps| - 1], f) + f(sweeps[|sweeps| - 1])
  }

  lemma {:induction false} ReplacingOne(sweeps: seq<Sweep>, k: nat, w: Sweep, f: Sweep -> nat)
    requires k < |sweeps|
    ensures Total(sweeps[k := w], f) + f(sweeps[k]) == Total(sweeps, f) + f(w)
    decreases sweeps
  {
    var init := sweeps[..|sweeps| - 1];
    if k == |init| {
      assert sweeps[k := w][..|sweeps| - 1] == init;
    } else {
      ReplacingOne(init, k, w, f);
      assert sweeps[k := w][..|sweeps| - 1] == init[k := w];
    }
  }
}
