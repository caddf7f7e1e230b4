/** The TTL cache in front of the renderer (`MetricsState` in src/metrics.rs),
    shared by any number of concurrent scrapes. There is no single-flight: a
    scrape reads the cache under the read lock, on a miss snapshots the registry
    and runs its own sweep, and stamps and overwrites the cache under the write
    lock.

    A run is any list of events. An event that is not enabled in a state leaves
    it unchanged, so every interleaving of scrapes is some event list. */
module MetricsCache {
  import opened Types
  import opened Prometheus

  datatype Entry = Entry(stamp: nat, body: string)

  /** `Instant::elapsed` saturates at zero. */
  function Elapsed(now: nat, since: nat): nat {
    if now >= since then now - since else 0
  }

  function Lookup(cache: Option<Entry>, ttl: Option<nat>, now: nat): Option<string> {
    if ttl.Some? && cache.Some? && Elapsed(now, cache.value.stamp) < ttl.value then Some(cache.value.body) else None
  }

  function Stored(cache: Option<Entry>, ttl: Option<nat>, now: nat, body: string): Option<Entry> {
    if ttl.Some? then Some(Entry(now, body)) else cache
  }

  /** The shared state with its two critical sections. */
  class MetricsState {
    const ttl: Option<nat>
    const secs: AsSecs
    var cache: Option<Entry>

    constructor (ttl: Option<nat>, secs: AsSecs)
      ensures this.ttl == ttl && this.secs == secs && cache == None
    {
      this.ttl, this.secs, cache := ttl, secs, None;
    }

    method CachedWithin(limit: nat, now: nat) returns (body: Option<string>)
      ensures body == Lookup(cache, Some(limit), now)
    {
      if cache.None? {
        return None;
      }
      return if Elapsed(now, cache.value.stamp) < limit then Some(cache.value.body) else None;
    }

    method Publish(results: seq<CheckResult>, now: nat) returns (rendered: string)
      modifies this
      ensures rendered == Render(Readings(results, secs))
      ensures cache == Stored(old(cache), ttl, now, rendered)
    {
      rendered := RenderPrometheus(results, secs);
      if ttl.Some? {
        cache := Some(Entry(now, rendered));
      }
    }

    /** One scrape with nobody else between its two critical sections: it reads
        the clock at `looked`, and again at `stored` after a sweep that
        returned `results`. */
    method Scrape(looked: nat, results: seq<CheckResult>, stored: nat) returns (body: string)
      modifies this
      ensures Lookup(old(cache), ttl, looked).Some? ==>
                body == Lookup(old(cache), ttl, looked).value && cache == old(cache)
      ensures Lookup(old(cache), ttl, looked).None? ==>
                body == Render(Readings(results, secs)) && cache == Stored(old(cache), ttl, stored, body)
    {
      if ttl.Some? {
        var cached := CachedWithin(ttl.value, looked);
        if cached.Some? {
          return cached.value;
        }
      }
      body := Publish(results, stored);
    }
  }

  // ----------------------------------------------------- concurrent scrapes

  datatype Phase = Missed | Running | Collected(readings: seq<Reading>) | Published(at: nat, readings: seq<Reading>)

  /** A scrape that missed: when it missed, when its sweep snapshots the registry
      (meaningless before), and what the renderer reads off the results. */
  datatype Sweep = Sweep(missed: nat, start: nat, phase: Phase)

  /** What a scrape got: the rendering of `sweep`, its own or the cached one. */
  datatype Response = Response(at: nat, body: string, sweep: nat, cached: bool)

  datatype State = State(now: nat, cache: Option<Entry>, writer: nat, sweeps: seq<Sweep>, responses: seq<Response>)

  datatype Event =
    | Tick(d: nat)
    | Arrive
    | Begin(k: nat)
    | Collect(k: nat, readings: seq<Reading>)
    | Write(k: nat)

  const INITIAL := State(0, None, 0, [], [])

  /** `writer` is the sweep whose rendering the cache holds. */
  function Step(s: State, ttl: Option<nat>, e: Event): State {
    match e
    case Tick(d) => s.(now := s.now + d)
    case Arrive =>
      (match Lookup(s.cache, ttl, s.now)
       case Some(body) => s.(responses := s.responses + [Response(s.now, body, s.writer, true)])
       case None => s.(sweeps := s.sweeps + [Sweep(s.now, s.now, Missed)]))
    case Begin(k) =>
      if k < |s.sweeps| && s.sweeps[k].phase.Missed?
      then s.(sweeps := s.sweeps[k := s.sweeps[k].(start := s.now, phase := Running)])
      else s
    case Collect(k, readings) =>
      if k < |s.sweeps| && s.sweeps[k].phase.Running?
      then s.(sweeps := s.sweeps[k := s.sweeps[k].(phase := Collected(readings))])
      else s
    case Write(k) =>
      if k < |s.sweeps| && s.sweeps[k].phase.Collected? then
        var readings := s.sweeps[k].phase.readings;
        s.(sweeps := s.sweeps[k := s.sweeps[k].(phase := Published(s.now, readings))],
           cache := Stored(s.cache, ttl, s.now, Render(readings)),
           writer := if ttl.Some? then k else s.writer,
           responses := s.responses + [Response(s.now, Render(readings), k, false)])
      else s
  }

  function Run(ttl: Option<nat>, events: seq<Event>): State
    decreases events
  {
    if events == [] then INITIAL else Step(Run(ttl, events[..|events| - 1]), ttl, events[|events| - 1])
  }

  lemma RunOneMore(ttl: Option<nat>, events: seq<Event>, e: Event)
    ensures Run(ttl, events + [e]) == Step(Run(ttl, events), ttl, e)
  {
    assert (events + [e])[..|events|] == events;
  }

  // --------------------------------------------------------------- staleness

  ghost predicate SweepInvariant(w: Sweep, now: nat) {
    && w.missed <= w.start <= now
    && (w.phase.Published? ==> w.start <= w.phase.at <= now)
  }

  /** The cache holds the rendering of one published sweep, stamped with the
      instant of its publication. */
  ghost predicate CacheInvariant(s: State) {
    && (s.cache.Some? ==>
          && s.writer < |s.sweeps| && s.sweeps[s.writer].phase.Published?
          && s.cache.value == Entry(s.sweeps[s.writer].phase.at, Render(s.sweeps[s.writer].phase.readings)))
    && (forall k | 0 <= k < |s.sweeps| :: SweepInvariant(s.sweeps[k], s.now))
  }

  /** ... and no published sweep is younger. */
  ghost predicate PublishedAreCached(s: State) {
    forall k | 0 <= k < |s.sweeps| && s.sweeps[k].phase.Published? ::
      s.cache.Some? && s.sweeps[k].phase.at <= s.cache.value.stamp
  }

  /** A response is byte for byte the rendering of one completed sweep, which was
      published less than `ttl` before if it comes from the cache, and otherwise
      the moment it was given. */
  ghost predicate Honest(s: State, ttl: Option<nat>, r: Response) {
    && r.sweep < |s.sweeps| && s.sweeps[r.sweep].phase.Published?
    && r.body == Render(s.sweeps[r.sweep].phase.readings)
    && s.sweeps[r.sweep].phase.at <= r.at <= s.now
    && (if r.cached then ttl.Some? && r.at - s.sweeps[r.sweep].phase.at < ttl.value
        else r.at == s.sweeps[r.sweep].phase.at)
  }

  ghost predicate Invariant(s: State, ttl: Option<nat>) {
    && CacheInvariant(s)
    && (ttl.Some? ==> PublishedAreCached(s))
    && (ttl.None? ==> s.cache.None?)
    && (forall i | 0 <= i < |s.responses| :: Honest(s, ttl, s.responses[i]))
  }

  /** The cache's stamp does not go back. */
  ghost predicate StampKept(s: State, t: State) {
    s.cache.Some? ==> t.cache.Some? && s.cache.value.stamp <= t.cache.value.stamp
  }

  lemma StepKeepsCache(s: State, ttl: Option<nat>, e: Event)
    requires Invariant(s, ttl)
    ensures CacheInvariant(Step(s, ttl, e)) && StampKept(s, Step(s, ttl, e))
    ensures ttl.Some? ==> PublishedAreCached(Step(s, ttl, e))
    ensures ttl.None? ==> Step(s, ttl, e).cache.None?
  {
    hide Render, Honest;
    var t := Step(s, ttl, e);
    forall k | 0 <= k < |t.sweeps| ensures SweepInvariant(t.sweeps[k], t.now) {
      assert k < |s.sweeps| ==> SweepInvariant(s.sweeps[k], s.now);
    }
  }

  lemma StepKeepsHonest(s: State, ttl: Option<nat>, e: Event, i: nat)
    requires Invariant(s, ttl) && i < |Step(s, ttl, e).responses|
    ensures Honest(Step(s, ttl, e), ttl, Step(s, ttl, e).responses[i])
  {
    hide Render;
    if i < |s.responses| {
      assert Honest(s, ttl, s.responses[i]);
    }
  }

  lemma StepKeepsInvariant(s: State, ttl: Option<nat>, e: Event)
    requires Invariant(s, ttl)
    ensures Invariant(Step(s, ttl, e), ttl) && StampKept(s, Step(s, ttl, e))
  {
    hide Step, CacheInvariant, PublishedAreCached, Honest;
    StepKeepsCache(s, ttl, e);
    forall i | 0 <= i < |Step(s, ttl, e).responses|
      ensures Honest(Step(s, ttl, e), ttl, Step(s, ttl, e).responses[i])
    {
      StepKeepsHonest(s, ttl, e, i);
    }
  }

  lemma {:induction false} RunKeepsInvariant(ttl: Option<nat>, events: seq<Event>)
    ensures Invariant(Run(ttl, events), ttl)
    decreases events
  {
    if events == [] {
    } else {
      RunKeepsInvariant(ttl, events[..|events| - 1]);
      StepKeepsInvariant(Run(ttl, events[..|events| - 1]), ttl, events[|events| - 1]);
    }
  }

  /** In every interleaving, what a scrape gets is the exposition of one completed
      sweep. From the cache, its age since that sweep's snapshot is below ttl plus
      the sweep's start-to-write time; on a miss it is that time. */
  lemma {:induction false} StalenessBound(ttl: Option<nat>, events: seq<Event>, i: nat)
    requires i < |Run(ttl, events).responses|
    ensures var s := Run(ttl, events);
            var r := s.responses[i];
            && Honest(s, ttl, r)
            && (var w := s.sweeps[r.sweep];
                if r.cached then ttl.Some? && r.at - w.start < ttl.value + (w.phase.at - w.start)
                else r.at - w.start == w.phase.at - w.start)
  {
    RunKeepsInvariant(ttl, events);
  }

  /** Cache stamps never decrease along a run. */
  lemma {:induction false} StampsNeverDecrease(ttl: Option<nat>, before: seq<Event>, after: seq<Event>)
    requires Run(ttl, before).cache.Some?
    ensures Run(ttl, before + after).cache.Some?
    ensures Run(ttl, before).cache.value.stamp <= Run(ttl, before + after).cache.value.stamp
    decreases after
  {
    hide Step, Invariant;
    if after == [] {
      assert before + after == before;
    } else {
      var init := after[..|after| - 1];
      StampsNeverDecrease(ttl, before, init);
      assert (before + after)[..|before + after| - 1] == before + init;
      RunKeepsInvariant(ttl, before + init);
      StepKeepsInvariant(Run(ttl, before + init), ttl, after[|after| - 1]);
    }
  }

  // ------------------------------------------------------- bounded re-execution

  /** Scrapes that missed and have not written yet. */
  function InFlight(sweeps: seq<Sweep>): nat {
    if sweeps == [] then 0
    else InFlight(sweeps[..|sweeps| - 1]) + if sweeps[|sweeps| - 1].phase.Published? then 0 else 1
  }

  ghost predicate AtMostInFlight(ttl: Option<nat>, events: seq<Event>, c: nat) {
    forall i | 0 <= i <= |events| :: InFlight(Run(ttl, events[..i]).sweeps) <= c
  }

  /** The sweep had begun at least ttl before the instant. */
  predicate LongBegun(w: Sweep, instant: nat, ttl: nat) {
    !w.phase.Missed? && w.start + ttl <= instant
  }

  /** Sweeps that had not. */
  function Recent(sweeps: seq<Sweep>, instant: nat, ttl: nat): nat {
    if sweeps == [] then 0
    else
      Recent(sweeps[..|sweeps| - 1], instant, ttl) + if LongBegun(sweeps[|sweeps| - 1], instant, ttl) then 0 else 1
  }

  /** A miss finds fewer than c sweeps that began in the last ttl. */
  ghost predicate Spaced(sweeps: seq<Sweep>, ttl: nat, c: nat) {
    forall m | 0 <= m < |sweeps| :: Recent(sweeps[..m], sweeps[m].missed, ttl) < c
  }

  lemma {:induction false} RecentAreInFlight(sweeps: seq<Sweep>, instant: nat, ttl: nat)
    requires forall k | 0 <= k < |sweeps| && sweeps[k].phase.Published? :: LongBegun(sweeps[k], instant, ttl)
    ensures Recent(sweeps, instant, ttl) <= InFlight(sweeps)
    decreases sweeps
  {
    if sweeps == [] {
    } else {
      RecentAreInFlight(sweeps[..|sweeps| - 1], instant, ttl);
    }
  }

  /** At a miss every published sweep began at least ttl ago, so with at most c
      scrapes in flight, this one included, fewer than c began in the last ttl. */
  lemma MissFollowsOldSweeps(s: State, ttl: nat, c: nat)
    requires Invariant(s, Some(ttl)) && Lookup(s.cache, Some(ttl), s.now).None?
    requires InFlight(s.sweeps + [Sweep(s.now, s.now, Missed)]) <= c
    ensures Recent(s.sweeps, s.now, ttl) < c
  {
    var all := s.sweeps + [Sweep(s.now, s.now, Missed)];
    assert all[..|all| - 1] == s.sweeps;
    forall k | 0 <= k < |s.sweeps| && s.sweeps[k].phase.Published? ensures LongBegun(s.sweeps[k], s.now, ttl) {
      assert SweepInvariant(s.sweeps[k], s.now);
      assert s.sweeps[k].start <= s.sweeps[k].phase.at <= s.cache.value.stamp;
    }
    RecentAreInFlight(s.sweeps, s.now, ttl);
  }

  /** A sweep that moves on: its miss is fixed, and so is its start once begun;
      one that begins only now began after any earlier instant. */
  ghost predicate MovesOn(w: Sweep, v: Sweep, now: nat) {
    && v.missed == w.missed && (v.phase.Missed? ==> w.phase.Missed?)
    && (if w.phase.Missed? then v.phase.Missed? || v.start == now else v.start == w.start)
  }

  lemma {:induction false} RecentIsFixed(sweeps: seq<Sweep>, later: seq<Sweep>, now: nat, instant: nat, ttl: nat)
    requires |sweeps| == |later| && instant <= now && ttl > 0
    requires forall k | 0 <= k < |sweeps| :: MovesOn(sweeps[k], later[k], now)
    ensures Recent(later, instant, ttl) == Recent(sweeps, instant, ttl)
    decreases sweeps
  {
    if sweeps == [] {
    } else {
      var n := |sweeps| - 1;
      RecentIsFixed(sweeps[..n], later[..n], now, instant, ttl);
      assert MovesOn(sweeps[n], later[n], now);
    }
  }

  lemma SweepsMoveOn(s: State, ttl: Option<nat>, e: Event)
    ensures |s.sweeps| <= |Step(s, ttl, e).sweeps| <= |s.sweeps| + 1
    ensures forall k | 0 <= k < |s.sweeps| :: MovesOn(s.sweeps[k], Step(s, ttl, e).sweeps[k], s.now)
    ensures |Step(s, ttl, e).sweeps| > |s.sweeps| ==>
              && Lookup(s.cache, ttl, s.now).None?
              && Step(s, ttl, e).sweeps == s.sweeps + [Sweep(s.now, s.now, Missed)]
  {
  }

  lemma StepKeepsSpacing(s: State, ttl: nat, e: Event, c: nat)
    requires ttl > 0 && Invariant(s, Some(ttl)) && Spaced(s.sweeps, ttl, c)
    requires InFlight(Step(s, Some(ttl), e).sweeps) <= c
    ensures Spaced(Step(s, Some(ttl), e).sweeps, ttl, c)
  {
    hide Step, Lookup, Invariant;
    SweepsMoveOn(s, Some(ttl), e);
    var later := Step(s, Some(ttl), e).sweeps;
    forall m | 0 <= m < |later| ensures Recent(later[..m], later[m].missed, ttl) < c {
      if m < |s.sweeps| {
        MissedBefore(s, ttl, m);
        assert MovesOn(s.sweeps[m], later[m], s.now);
        RecentIsFixed(s.sweeps[..m], later[..m], s.now, s.sweeps[m].missed, ttl);
      } else {
        MissFollowsOldSweeps(s, ttl, c);
        assert later[..m] == s.sweeps;
      }
    }
  }

  lemma MissedBefore(s: State, ttl: nat, m: nat)
    requires Invariant(s, Some(ttl)) && m < |s.sweeps|
    ensures s.sweeps[m].missed <= s.sweeps[m].start && s.sweeps[m].missed <= s.now
  {
    assert SweepInvariant(s.sweeps[m], s.now);
  }

  lemma AtMostPrefix(ttl: Option<nat>, events: seq<Event>, c: nat)
    requires AtMostInFlight(ttl, events, c) && events != []
    ensures AtMostInFlight(ttl, events[..|events| - 1], c) && InFlight(Run(ttl, events).sweeps) <= c
  {
    var init := events[..|events| - 1];
    forall i | 0 <= i <= |init| ensures InFlight(Run(ttl, init[..i]).sweeps) <= c {
      assert init[..i] == events[..i];
    }
    assert events[..|events|] == events;
  }

  lemma {:induction false} RunIsSpaced(ttl: nat, events: seq<Event>, c: nat)
    requires ttl > 0 && AtMostInFlight(Some(ttl), events, c)
    ensures Spaced(Run(Some(ttl), events).sweeps, ttl, c)
    decreases events
  {
    if events == [] {
    } else {
      hide Step, AtMostInFlight;
      var init := events[..|events| - 1];
      AtMostPrefix(Some(ttl), events, c);
      RunIsSpaced(ttl, init, c);
      RunKeepsInvariant(Some(ttl), init);
      StepKeepsSpacing(Run(Some(ttl), init), ttl, events[|events| - 1], c);
    }
  }

  /** Sweeps begun in the closed window [from, from + length]. */
  function BegunWithin(sweeps: seq<Sweep>, from: nat, length: nat): nat {
    if sweeps == [] then 0
    else
      var last := sweeps[|sweeps| - 1];
      BegunWithin(sweeps[..|sweeps| - 1], from, length)
      + if !last.phase.Missed? && from <= last.start <= from + length then 1 else 0
  }

  lemma {:induction false} WindowIsRecent(sweeps: seq<Sweep>, from: nat, length: nat, instant: nat, ttl: nat)
    requires instant < from + ttl
    ensures BegunWithin(sweeps, from, length) <= Recent(sweeps, instant, ttl)
    decreases sweeps
  {
    if sweeps == [] {
    } else {
      WindowIsRecent(sweeps[..|sweeps| - 1], from, length, instant, ttl);
    }
  }

  /** In a window shorter than ttl, the last sweep to have missed finds all the
      others recent. */
  lemma {:induction false} ShortWindow(sweeps: seq<Sweep>, ttl: nat, c: nat, from: nat, length: nat)
    requires Spaced(sweeps, ttl, c) && length < ttl
    requires forall k | 0 <= k < |sweeps| :: sweeps[k].missed <= sweeps[k].start
    ensures BegunWithin(sweeps, from, length) <= c
    decreases sweeps
  {
    if sweeps == [] {
    } else {
      var init, last := sweeps[..|sweeps| - 1], sweeps[|sweeps| - 1];
      if !last.phase.Missed? && from <= last.start <= from + length {
        WindowIsRecent(init, from, length, last.missed, ttl);
        assert Recent(sweeps[..|sweeps| - 1], sweeps[|sweeps| - 1].missed, ttl) < c;
      } else {
        assert forall m | 0 <= m < |init| :: init[..m] == sweeps[..m];
        ShortWindow(init, ttl, c, from, length);
      }
    }
  }

  lemma {:induction false} SplitWindow(sweeps: seq<Sweep>, from: nat, first: nat, length: nat)
    requires first < length
    ensures BegunWithin(sweeps, from, length)
         == BegunWithin(sweeps, from, first) + BegunWithin(sweeps, from + first + 1, length - first - 1)
    decreases sweeps
  {
    if sweeps == [] {
    } else {
      SplitWindow(sweeps[..|sweeps| - 1], from, first, length);
    }
  }

  lemma {:induction false} SpacedWindow(sweeps: seq<Sweep>, ttl: nat, c: nat, from: nat, length: nat, p: nat)
    requires ttl > 0 && Spaced(sweeps, ttl, c) && length < ttl * p
    requires forall k | 0 <= k < |sweeps| :: sweeps[k].missed <= sweeps[k].start
    ensures BegunWithin(sweeps, from, length) <= c * p
    decreases p
  {
    hide Spaced, BegunWithin;
    OnePeriodLess(ttl, p);
    OnePeriodLess(c, p);
    if length < ttl {
      ShortWindow(sweeps, ttl, c, from, length);
    } else {
      ShortWindow(sweeps, ttl, c, from, ttl - 1);
      SplitWindow(sweeps, from, ttl - 1, length);
      SpacedWindow(sweeps, ttl, c, from + ttl, length - ttl, p - 1);
    }
  }

  lemma OnePeriodLess(a: nat, p: nat)
    ensures p > 0 ==> a * p == a * (p - 1) + a && a * (p - 1) >= 0
    ensures p == 0 ==> a * p == 0
  {
  }

  lemma PeriodsExceed(length: nat, ttl: nat)
    requires ttl > 0
    ensures ttl * (length / ttl + 1) > length
  {
    assert length == ttl * (length / ttl) + length % ttl;
  }

  /** With at most c scrapes in flight, any window of length T begins at most
      c * (T / ttl + 1) sweeps: the cache bounds the load although nothing stops
      concurrent scrapes from missing together, nor a missed scrape from starting
      its sweep late. */
  lemma {:induction false} BoundedReExecution(ttl: nat, events: seq<Event>, c: nat, from: nat, length: nat)
    requires ttl > 0 && AtMostInFlight(Some(ttl), events, c)
    ensures BegunWithin(Run(Some(ttl), events).sweeps, from, length) <= c * (length / ttl + 1)
  {
    RunIsSpaced(ttl, events, c);
    RunKeepsInvariant(Some(ttl), events);
    var s := Run(Some(ttl), events);
    forall k | 0 <= k < |s.sweeps| ensures s.sweeps[k].missed <= s.sweeps[k].start {
      MissedBefore(s, ttl, k);
    }
    PeriodsExceed(length, ttl);
    SpacedWindow(s.sweeps, ttl, c, from, length, length / ttl + 1);
  }

  function Hits(responses: seq<Response>): nat {
    if responses == [] then 0
    else Hits(responses[..|responses| - 1]) + if responses[|responses| - 1].cached then 1 else 0
  }

  lemma OneMoreHit(responses: seq<Response>, r: Response)
    ensures Hits(responses + [r]) == Hits(responses) + if r.cached then 1 else 0
  {
    assert (responses + [r])[..|responses|] == responses;
  }

  lemma {:induction false} InFlightMoves(sweeps: seq<Sweep>, k: nat, w: Sweep)
    requires k < |sweeps| && !sweeps[k].phase.Published?
    ensures InFlight(sweeps[k := w]) == InFlight(sweeps) - if w.phase.Published? then 1 else 0
    ensures InFlight(sweeps) > 0
    decreases sweeps
  {
    var init := sweeps[..|sweeps| - 1];
    if k == |init| {
      assert sweeps[k := w][..|sweeps| - 1] == init;
    } else {
      InFlightMoves(init, k, w);
      assert sweeps[k := w][..|sweeps| - 1] == init[k := w];
    }
  }

  lemma StepAccounts(s: State, ttl: Option<nat>, e: Event)
    ensures var t := Step(s, ttl, e);
            && |t.sweeps| + Hits(t.responses) == |s.sweeps| + Hits(s.responses) + (if e.Arrive? then 1 else 0)
            && |t.responses| - Hits(t.responses) + InFlight(t.sweeps) - |t.sweeps|
            == |s.responses| - Hits(s.responses) + InFlight(s.sweeps) - |s.sweeps|
  {
    hide Render, Hits;
    match e
    case Tick(d) =>
    case Arrive =>
      var missed := Sweep(s.now, s.now, Missed);
      assert (s.sweeps + [missed])[..|s.sweeps|] == s.sweeps;
      if Lookup(s.cache, ttl, s.now).Some? {
        OneMoreHit(s.responses, Response(s.now, s.cache.value.body, s.writer, true));
      }
    case Begin(k) =>
      if k < |s.sweeps| && s.sweeps[k].phase.Missed? {
        InFlightMoves(s.sweeps, k, s.sweeps[k].(start := s.now, phase := Running));
      }
    case Collect(k, readings) =>
      if k < |s.sweeps| && s.sweeps[k].phase.Running? {
        InFlightMoves(s.sweeps, k, s.sweeps[k].(phase := Collected(readings)));
      }
    case Write(k) =>
      if k < |s.sweeps| && s.sweeps[k].phase.Collected? {
        var readings := s.sweeps[k].phase.readings;
        InFlightMoves(s.sweeps, k, s.sweeps[k].(phase := Published(s.now, readings)));
        OneMoreHit(s.responses, Response(s.now, Render(readings), k, false));
      }
  }

  /** Every scrape is accounted for: it was served from the cache or became a
      miss, and every miss was answered or is still in flight. */
  lemma {:induction false} ScrapesAreAccountedFor(ttl: Option<nat>, events: seq<Event>)
    ensures var s := Run(ttl, events);
            && Arrivals(events) == Hits(s.responses) + |s.sweeps|
            && |s.sweeps| == |s.responses| - Hits(s.responses) + InFlight(s.sweeps)
            && Arrivals(events) == |s.responses| + InFlight(s.sweeps)
    decreases events
  {
    hide Step;
    if events == [] {
    } else {
      ScrapesAreAccountedFor(ttl, events[..|events| - 1]);
      StepAccounts(Run(ttl, events[..|events| - 1]), ttl, events[|events| - 1]);
    }
  }

  function Arrivals(events: seq<Event>): nat {
    if events == [] then 0 else Arrivals(events[..|events| - 1]) + if events[|events| - 1].Arrive? then 1 else 0
  }

  /** Without a cache, and just as well with a zero ttl, every scrape sweeps. */
  lemma {:induction false} UncachedScrapesAlwaysSweep(ttl: Option<nat>, events: seq<Event>)
    requires ttl == None || ttl == Some(0)
    ensures |Run(ttl, events).sweeps| == Arrivals(events)
    ensures forall r | r in Run(ttl, events).responses :: !r.cached
    decreases events
  {
    if events == [] {
    } else {
      UncachedScrapesAlwaysSweep(ttl, events[..|events| - 1]);
    }
  }
}
