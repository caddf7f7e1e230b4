/** How fresh the bodies are that concurrent scrapes get (`MetricsState` in
    src/metrics.rs): how long a change can stay hidden, how old a body can be,
    and when responses never go back to an older sweep. */
module CacheFreshness {
  import opened Types
  import opened Prometheus
  import opened MetricsCache

  /** The event is a write that takes place: a sweep with results becomes
      published, and its scrape is answered. */
  predicate Publishes(s: State, e: Event) {
    e.Write? && e.k < |s.sweeps| && s.sweeps[e.k].phase.Collected?
  }

  /** Starts, publications and responses are final. */
  ghost predicate Extends(s: State, t: State) {
    && s.now <= t.now && |s.sweeps| <= |t.sweeps| && s.responses <= t.responses
    && forall k | 0 <= k < |t.sweeps| :: Follows(s, k, t.sweeps[k])
  }

  /** The k-th sweep later: as it was, or begun since. */
  ghost predicate Follows(s: State, k: nat, w: Sweep) {
    && (k < |s.sweeps| && s.sweeps[k].phase.Published? ==> w == s.sweeps[k])
    && (if k < |s.sweeps| && !s.sweeps[k].phase.Missed?
        then !w.phase.Missed? && w.start == s.sweeps[k].start
        else w.phase.Missed? || w.start >= s.now)
  }

  /** Only a write makes a publication or moves the cache; without one, all
      responses come from the cache as it was. */
  ghost predicate NothingPublished(s: State, t: State) {
    && t.cache == s.cache && t.writer == s.writer && |s.responses| <= |t.responses|
    && (forall k | 0 <= k < |t.sweeps| && t.sweeps[k].phase.Published? ::
          k < |s.sweeps| && s.sweeps[k].phase.Published?)
    && (forall i | |s.responses| <= i < |t.responses| :: FromCache(s, t.responses[i]))
  }

  ghost predicate FromCache(s: State, r: Response) {
    s.cache.Some? && r.cached && r.body == s.cache.value.body && r.sweep == s.writer
  }

  lemma StepExtends(s: State, ttl: Option<nat>, e: Event)
    ensures Extends(s, Step(s, ttl, e))
    ensures !Publishes(s, e) ==> NothingPublished(s, Step(s, ttl, e))
  {
    hide Render;
  }

  lemma ExtendsTwice(s: State, t: State, u: State)
    requires Extends(s, t) && Extends(t, u)
    ensures Extends(s, u)
  {
    forall k | 0 <= k < |u.sweeps| ensures Follows(s, k, u.sweeps[k]) {
      assert Follows(t, k, u.sweeps[k]);
      if k < |t.sweeps| {
        assert Follows(s, k, t.sweeps[k]);
      }
    }
  }

  lemma {:induction false} RunExtends(ttl: Option<nat>, before: seq<Event>, after: seq<Event>)
    ensures Extends(Run(ttl, before), Run(ttl, before + after))
    decreases after
  {
    hide Step, Follows;
    if after == [] {
      assert before + after == before;
      ExtendsItself(Run(ttl, before));
    } else {
      var init, e := after[..|after| - 1], after[|after| - 1];
      RunExtends(ttl, before, init);
      assert before + after == before + init + [e];
      RunOneMore(ttl, before + init, e);
      StepExtends(Run(ttl, before + init), ttl, e);
      ExtendsTwice(Run(ttl, before), Run(ttl, before + init), Run(ttl, before + after));
    }
  }

  lemma ExtendsItself(s: State)
    ensures Extends(s, s) && NothingPublished(s, s)
  {
    assert forall k | 0 <= k < |s.sweeps| :: Follows(s, k, s.sweeps[k]);
  }

  // ------------------------------------------------- scrapes in the next ttl

  /** No publication in `after`, a continuation of `before`. */
  ghost predicate Undisturbed(ttl: Option<nat>, before: seq<Event>, after: seq<Event>) {
    forall n | 0 <= n < |after| :: !Publishes(Run(ttl, before + after[..n]), after[n])
  }

  lemma UndisturbedPrefix(ttl: Option<nat>, before: seq<Event>, after: seq<Event>)
    requires after != [] && Undisturbed(ttl, before, after)
    ensures Undisturbed(ttl, before, after[..|after| - 1])
    ensures !Publishes(Run(ttl, before + after[..|after| - 1]), after[|after| - 1])
  {
    hide Publishes, Run;
    var init := after[..|after| - 1];
    forall n | 0 <= n < |init| ensures !Publishes(Run(ttl, before + init[..n]), init[n]) {
      assert init[..n] == after[..n];
    }
  }

  lemma NothingTwice(s: State, t: State, u: State)
    requires NothingPublished(s, t) && NothingPublished(t, u) && t.responses <= u.responses
    ensures NothingPublished(s, u)
  {
    forall i | |s.responses| <= i < |u.responses| ensures FromCache(s, u.responses[i]) {
      assert FromCache(t, u.responses[i]) || u.responses[i] == t.responses[i];
    }
  }

  lemma {:induction false} UndisturbedPublishesNothing(ttl: Option<nat>, before: seq<Event>, after: seq<Event>)
    requires Undisturbed(ttl, before, after)
    ensures NothingPublished(Run(ttl, before), Run(ttl, before + after))
    decreases after
  {
    hide Step, Run, NothingPublished, Publishes, Follows;
    if after == [] {
      assert before + after == before;
      ExtendsItself(Run(ttl, before));
    } else {
      var init, e := after[..|after| - 1], after[|after| - 1];
      UndisturbedPrefix(ttl, before, after);
      UndisturbedPublishesNothing(ttl, before, init);
      assert before + after == before + init + [e];
      RunOneMore(ttl, before + init, e);
      StepExtends(Run(ttl, before + init), ttl, e);
      NothingTwice(Run(ttl, before), Run(ttl, before + init), Run(ttl, before + after));
    }
  }

  /** In a cache whose stamp is younger than ttl, a scrape hits and starts no
      sweep. */
  lemma FreshStep(s: State, ttl: nat, e: Event)
    requires s.cache.Some? && s.now < s.cache.value.stamp + ttl && ttl > 0
    ensures |Step(s, Some(ttl), e).sweeps| == |s.sweeps|
    ensures Hits(Step(s, Some(ttl), e).responses) == Hits(s.responses) + if e.Arrive? then 1 else 0
  {
    hide Render, Hits;
    match e
    case Arrive =>
      OneMoreHit(s.responses, Response(s.now, s.cache.value.body, s.writer, true));
    case Write(k) =>
      if Publishes(s, e) {
        OneMoreHit(s.responses, Response(s.now, Render(s.sweeps[k].phase.readings), k, false));
      }
    case _ =>
  }

  lemma OneWrite(ttl: nat, before: seq<Event>, k: nat)
    requires Publishes(Run(Some(ttl), before), Write(k))
    ensures var s, t := Run(Some(ttl), before), Run(Some(ttl), before + [Write(k)]);
            var body := Render(s.sweeps[k].phase.readings);
            && |t.sweeps| == |s.sweeps| && Hits(t.responses) == Hits(s.responses) && t.now == s.now
            && t.responses == s.responses + [Response(s.now, body, k, false)]
            && t.writer == k && t.cache == Some(Entry(s.now, body))
            && t.sweeps[k].start == s.sweeps[k].start
  {
    hide Render, Run, Hits;
    RunOneMore(Some(ttl), before, Write(k));
    var s := Run(Some(ttl), before);
    OneMoreHit(s.responses, Response(s.now, Render(s.sweeps[k].phase.readings), k, false));
  }

  /** The instants of the next ttl after a write all find a fresh cache. */
  lemma FreshAfterWrite(ttl: nat, before: seq<Event>, k: nat, after: seq<Event>, e: Event)
    requires Publishes(Run(Some(ttl), before), Write(k))
    requires Run(Some(ttl), before + [Write(k)] + (after + [e])).now < Run(Some(ttl), before).now + ttl
    ensures var t := Run(Some(ttl), before + [Write(k)] + after);
            && Run(Some(ttl), before + [Write(k)] + (after + [e])) == Step(t, Some(ttl), e)
            && t.cache.Some? && t.now < t.cache.value.stamp + ttl && ttl > 0
            && t.now < Run(Some(ttl), before).now + ttl
  {
    hide Run, Step, Follows, Publishes;
    var all := before + [Write(k)];
    OneWrite(ttl, before, k);
    assert all + (after + [e]) == all + after + [e];
    RunOneMore(Some(ttl), all + after, e);
    RunExtends(Some(ttl), all, after);
    RunExtends(Some(ttl), all + after, [e]);
    StampsNeverDecrease(Some(ttl), all, after);
  }

  /** After a write every scrape of the next ttl is served from the cache and
      starts no sweep, whatever happens in between. */
  lemma {:induction false} HitsFollowWrite(ttl: nat, before: seq<Event>, k: nat, after: seq<Event>)
    requires Publishes(Run(Some(ttl), before), Write(k))
    requires Run(Some(ttl), before + [Write(k)] + after).now < Run(Some(ttl), before).now + ttl
    ensures var s, t := Run(Some(ttl), before), Run(Some(ttl), before + [Write(k)] + after);
            && |t.sweeps| == |s.sweeps|
            && Hits(t.responses) == Hits(s.responses) + Arrivals(after)
    decreases after
  {
    hide Run, Step, Publishes, Hits;
    if after == [] {
      OneWrite(ttl, before, k);
      assert before + [Write(k)] + after == before + [Write(k)];
    } else {
      var init, e := after[..|after| - 1], after[|after| - 1];
      assert after == init + [e];
      FreshAfterWrite(ttl, before, k, init, e);
      HitsFollowWrite(ttl, before, k, init);
      FreshStep(Run(Some(ttl), before + [Write(k)] + init), ttl, e);
    }
  }

  /** Unless another write comes in between, the scrape that wrote and all those
      after it get the body that was written. */
  lemma {:induction false} HitsCarryWrite(ttl: nat, before: seq<Event>, k: nat, after: seq<Event>, i: nat)
    requires Publishes(Run(Some(ttl), before), Write(k))
    requires Undisturbed(Some(ttl), before + [Write(k)], after)
    requires |Run(Some(ttl), before).responses| <= i < |Run(Some(ttl), before + [Write(k)] + after).responses|
    ensures var r := Run(Some(ttl), before + [Write(k)] + after).responses[i];
            && r.sweep == k && r.body == Render(Run(Some(ttl), before).sweeps[k].phase.readings)
  {
    hide Run, Step, Render, Follows;
    OneWrite(ttl, before, k);
    UndisturbedPublishesNothing(Some(ttl), before + [Write(k)], after);
    RunExtends(Some(ttl), before + [Write(k)], after);
    var t, u := Run(Some(ttl), before + [Write(k)]), Run(Some(ttl), before + [Write(k)] + after);
    if i < |t.responses| {
      assert u.responses[i] == t.responses[i];
    } else {
      assert FromCache(t, u.responses[i]);
    }
  }

  // -------------------------------------------------- readers at any moment

  /** Scrapes and time, but no further publication. */
  ghost predicate Readers(after: seq<Event>) {
    forall e | e in after :: !e.Write?
  }

  /** What readers see was published in the run itself, and as it was. */
  lemma ReadersSeeTheRun(ttl: nat, events: seq<Event>, n: nat, after: seq<Event>, k: nat)
    requires n <= |events| && Readers(after)
    requires var t := Run(Some(ttl), events[..n] + after); k < |t.sweeps| && t.sweeps[k].phase.Published?
    ensures k < |Run(Some(ttl), events).sweeps|
    ensures Run(Some(ttl), events).sweeps[k] == Run(Some(ttl), events[..n] + after).sweeps[k]
  {
    hide Run;
    assert events[..n] + events[n..] == events;
    RunExtends(Some(ttl), events[..n], events[n..]);
    assert Undisturbed(Some(ttl), events[..n], after);
    UndisturbedPublishesNothing(Some(ttl), events[..n], after);
    RunExtends(Some(ttl), events[..n], after);
    var s, t, u := Run(Some(ttl), events[..n]), Run(Some(ttl), events[..n] + after), Run(Some(ttl), events);
    assert Follows(s, k, t.sweeps[k]) && Follows(s, k, u.sweeps[k]);
  }

  /** The write that published sweep k. */
  lemma {:induction false} PublishedBy(ttl: Option<nat>, events: seq<Event>, k: nat) returns (n: nat)
    requires k < |Run(ttl, events).sweeps| && Run(ttl, events).sweeps[k].phase.Published?
    ensures n < |events| && events[n] == Write(k) && Publishes(Run(ttl, events[..n]), events[n])
    ensures Run(ttl, events).sweeps[k].start == Run(ttl, events[..n]).sweeps[k].start
    ensures Run(ttl, events).sweeps[k].phase.at == Run(ttl, events[..n]).now
    decreases events
  {
    var init, e := events[..|events| - 1], events[|events| - 1];
    var s := Run(ttl, init);
    StepExtends(s, ttl, e);
    assert Follows(s, k, Step(s, ttl, e).sweeps[k]);
    if k < |s.sweeps| && s.sweeps[k].phase.Published? {
      n := PublishedBy(ttl, init, k);
      assert init[..n] == events[..n];
    } else {
      n := |init|;
    }
  }

  function Served(ttl: nat, events: seq<Event>, k: nat, d: nat): State {
    Run(Some(ttl), events + [Write(k)] + [Tick(d)] + [Arrive])
  }

  /** The scrape that comes `d` after the write of sweep k. */
  lemma ServedAfter(ttl: nat, events: seq<Event>, k: nat, d: nat)
    requires Publishes(Run(Some(ttl), events), Write(k)) && d < ttl
    ensures var s, t := Run(Some(ttl), events), Served(ttl, events, k, d);
            var body := Render(s.sweeps[k].phase.readings);
            && |t.sweeps| == |s.sweeps|
            && t.responses == s.responses + [Response(s.now, body, k, false), Response(s.now + d, body, k, true)]
            && t.sweeps[k].start == s.sweeps[k].start
  {
    hide Render, Run;
    RunOneMore(Some(ttl), events, Write(k));
    RunOneMore(Some(ttl), events + [Write(k)], Tick(d));
    RunOneMore(Some(ttl), events + [Write(k)] + [Tick(d)], Arrive);
  }

  /** ... as a continuation of a run whose n-th event is that write. */
  lemma ServedInside(ttl: nat, events: seq<Event>, n: nat, d: nat)
    requires n < |events| && events[n].Write?
    ensures events[..n + 1] + ([Tick(d)] + [Arrive]) == events[..n] + [Write(events[n].k)] + [Tick(d)] + [Arrive]
    ensures Readers([Tick(d)] + [Arrive])
  {
  }

  // ------------------------------------------------------------ hidden changes

  /** A check that changes at instant f is seen from f + ttl on: what is answered
      then renders a sweep that began at f or later. */
  ghost predicate Shown(s: State, ttl: nat, f: nat) {
    forall i | 0 <= i < |s.responses| && s.responses[i].at >= f + ttl && s.responses[i].sweep < |s.sweeps| ::
      s.sweeps[s.responses[i].sweep].start >= f
  }

  /** The sweep was under way at instant f: begun before, published after. */
  ghost predicate Spans(w: Sweep, f: nat) {
    w.phase.Published? && w.start < f < w.phase.at
  }

  lemma UnspannedIsShown(s: State, ttl: nat, f: nat)
    requires ttl > 0 && Invariant(s, Some(ttl)) && forall k | 0 <= k < |s.sweeps| :: !Spans(s.sweeps[k], f)
    ensures Shown(s, ttl, f)
  {
    hide Render;
    forall i | 0 <= i < |s.responses| && s.responses[i].at >= f + ttl && s.responses[i].sweep < |s.sweeps|
      ensures s.sweeps[s.responses[i].sweep].start >= f
    {
      assert Honest(s, Some(ttl), s.responses[i]);
      assert !Spans(s.sweeps[s.responses[i].sweep], f);
    }
  }

  /** However scrapes come at any moment of the run, they see the change in time. */
  ghost predicate AlwaysShown(ttl: nat, events: seq<Event>, f: nat) {
    forall n, after: seq<Event> | 0 <= n <= |events| && Readers(after) ::
      Shown(Run(Some(ttl), events[..n] + after), ttl, f)
  }

  lemma SpanHides(ttl: nat, events: seq<Event>, f: nat, k: nat)
    requires ttl > 0 && k < |Run(Some(ttl), events).sweeps| && Spans(Run(Some(ttl), events).sweeps[k], f)
    ensures !AlwaysShown(ttl, events, f)
  {
    hide Run, Served, Render;
    var n := PublishedBy(Some(ttl), events, k);
    ServedAfter(ttl, events[..n], k, ttl - 1);
    ServedInside(ttl, events, n, ttl - 1);
    var s, t := Run(Some(ttl), events[..n]), Served(ttl, events[..n], k, ttl - 1);
    assert t == Run(Some(ttl), events[..n + 1] + ([Tick(ttl - 1)] + [Arrive])) by {
      ServedUnfolds(ttl, events[..n], k, ttl - 1);
    }
    assert t.responses[|s.responses| + 1].at == s.now + (ttl - 1) && !Shown(t, ttl, f);
  }

  lemma ServedUnfolds(ttl: nat, events: seq<Event>, k: nat, d: nat)
    ensures Served(ttl, events, k, d) == Run(Some(ttl), events + [Write(k)] + [Tick(d)] + [Arrive])
  {
  }

  /** The documented tradeoff, that a changed check stays invisible for up to
      ttl: scrapes at any moment of a run see a change at instant f from f + ttl
      on exactly when no sweep published in the run was under way at f. */
  lemma {:induction false} ChangeShownExactly(ttl: nat, events: seq<Event>, f: nat)
    requires ttl > 0
    ensures AlwaysShown(ttl, events, f) <==>
            forall k | 0 <= k < |Run(Some(ttl), events).sweeps| :: !Spans(Run(Some(ttl), events).sweeps[k], f)
  {
    hide Run, Shown;
    var u := Run(Some(ttl), events);
    if forall k | 0 <= k < |u.sweeps| :: !Spans(u.sweeps[k], f) {
      forall n, after: seq<Event> | 0 <= n <= |events| && Readers(after)
        ensures Shown(Run(Some(ttl), events[..n] + after), ttl, f)
      {
        var t := Run(Some(ttl), events[..n] + after);
        RunKeepsInvariant(Some(ttl), events[..n] + after);
        forall k | 0 <= k < |t.sweeps| ensures !Spans(t.sweeps[k], f) {
          if t.sweeps[k].phase.Published? {
            ReadersSeeTheRun(ttl, events, n, after, k);
            assert !Spans(u.sweeps[k], f);
          }
        }
        UnspannedIsShown(t, ttl, f);
      }
    } else {
      var k :| 0 <= k < |u.sweeps| && Spans(u.sweeps[k], f);
      SpanHides(ttl, events, f, k);
    }
  }

  /** A change at a moment when no sweep is under way is always seen in time. */
  lemma {:induction false} QuietChangeIsShown(ttl: nat, before: seq<Event>, after: seq<Event>)
    requires ttl > 0
    requires forall k | 0 <= k < |Run(Some(ttl), before).sweeps| ::
               var p := Run(Some(ttl), before).sweeps[k].phase; p.Missed? || p.Published?
    ensures Shown(Run(Some(ttl), before + after), ttl, Run(Some(ttl), before).now)
  {
    hide Run, Render;
    RunKeepsInvariant(Some(ttl), before);
    RunKeepsInvariant(Some(ttl), before + after);
    RunExtends(Some(ttl), before, after);
    var s, t := Run(Some(ttl), before), Run(Some(ttl), before + after);
    forall k | 0 <= k < |t.sweeps| ensures !Spans(t.sweeps[k], s.now) {
      assert Follows(s, k, t.sweeps[k]);
      assert k < |s.sweeps| ==> SweepInvariant(s.sweeps[k], s.now);
    }
    UnspannedIsShown(t, ttl, s.now);
  }

  const TWO_MISS: seq<Event> := [Arrive, Arrive, Begin(0), Begin(1)]

  lemma TwoMiss(ttl: Option<nat>)
    ensures Run(ttl, TWO_MISS) == State(0, None, 0, [Sweep(0, 0, Running), Sweep(0, 0, Running)], [])
  {
    assert TWO_MISS == [] + [Arrive] + [Arrive] + [Begin(0)] + [Begin(1)];
    RunOneMore(ttl, [], Arrive);
    RunOneMore(ttl, [] + [Arrive], Arrive);
    RunOneMore(ttl, [] + [Arrive] + [Arrive], Begin(0));
    RunOneMore(ttl, [] + [Arrive] + [Arrive] + [Begin(0)], Begin(1));
  }

  lemma TwoCollect(ttl: Option<nat>, a: seq<Reading>, b: seq<Reading>)
    ensures Run(ttl, TWO_MISS + [Collect(0, a)] + [Collect(1, b)])
         == State(0, None, 0, [Sweep(0, 0, Collected(a)), Sweep(0, 0, Collected(b))], [])
  {
    TwoMiss(ttl);
    RunOneMore(ttl, TWO_MISS, Collect(0, a));
    RunOneMore(ttl, TWO_MISS + [Collect(0, a)], Collect(1, b));
  }

  /** A change hidden for longer: right after a scrape was answered at instant 0,
      at instant 1, a check changes; a second sweep is under way, is written at
      2, and is served once more when ttl has passed since the change. */
  lemma ChangeStaysHidden(ttl: nat, a: seq<Reading>, b: seq<Reading>)
    requires ttl > 0
    ensures var before := TWO_MISS + [Collect(0, a)] + [Collect(1, b)] + [Write(0)] + [Tick(2)];
            var s := Served(ttl, before, 1, ttl - 1);
            && s.responses == [Response(0, Render(a), 0, false), Response(2, Render(b), 1, false),
                               Response(2 + (ttl - 1), Render(b), 1, true)]
            && |s.sweeps| == 2 && s.sweeps[1].start == 0 && !Shown(s, ttl, 1)
  {
    hide Render;
    var c := TWO_MISS + [Collect(0, a)] + [Collect(1, b)];
    TwoCollect(Some(ttl), a, b);
    RunOneMore(Some(ttl), c, Write(0));
    RunOneMore(Some(ttl), c + [Write(0)], Tick(2));
    ServedAfter(ttl, c + [Write(0)] + [Tick(2)], 1, ttl - 1);
    var s := Served(ttl, c + [Write(0)] + [Tick(2)], 1, ttl - 1);
    assert s.responses[2].at >= 1 + ttl;
  }

  // ------------------------------------------------------------ age of bodies

  /** Age of a body: the time since its sweep's snapshot. */
  function Age(s: State, i: nat): int
    requires i < |s.responses| && s.responses[i].sweep < |s.sweeps|
  {
    s.responses[i].at - s.sweeps[s.responses[i].sweep].start
  }

  /** Every body so far was younger than ttl when a scrape got it. */
  ghost predicate ServedYoung(s: State, ttl: nat) {
    forall i | 0 <= i < |s.responses| && s.responses[i].sweep < |s.sweeps| :: Age(s, i) < ttl
  }

  ghost predicate Instant(w: Sweep) {
    w.phase.Published? ==> w.phase.at == w.start
  }

  ghost predicate InstantSweeps(s: State) {
    forall k | 0 <= k < |s.sweeps| :: Instant(s.sweeps[k])
  }

  lemma InstantIsYoung(s: State, ttl: nat)
    requires ttl > 0 && Invariant(s, Some(ttl)) && InstantSweeps(s)
    ensures ServedYoung(s, ttl)
  {
    hide Render;
    forall i | 0 <= i < |s.responses| && s.responses[i].sweep < |s.sweeps| ensures Age(s, i) < ttl {
      assert Honest(s, Some(ttl), s.responses[i]);
      assert Instant(s.sweeps[s.responses[i].sweep]);
    }
  }

  /** For one write: the bodies given out in the ttl after it are all younger than
      ttl exactly when the sweep took no time at all. */
  lemma {:induction false} YoungAfterWriteExactly(ttl: nat, events: seq<Event>, k: nat)
    requires ttl > 0 && Publishes(Run(Some(ttl), events), Write(k))
    ensures var s := Run(Some(ttl), events);
            && (forall d: nat | d < ttl ::
                  var t := Served(ttl, events, k, d);
                  |t.responses| == |s.responses| + 2 && t.responses[|s.responses| + 1].sweep == k < |t.sweeps|)
            && ((forall d: nat | d < ttl :: Age(Served(ttl, events, k, d), |s.responses| + 1) < ttl)
                <==> s.sweeps[k].start == s.now)
  {
    hide Served, Run, Render, Honest;
    RunKeepsInvariant(Some(ttl), events);
    var s := Run(Some(ttl), events);
    assert SweepInvariant(s.sweeps[k], s.now);
    forall d: nat | d < ttl
      ensures |Served(ttl, events, k, d).responses| == |s.responses| + 2
      ensures Served(ttl, events, k, d).responses[|s.responses| + 1].sweep == k < |Served(ttl, events, k, d).sweeps|
      ensures Age(Served(ttl, events, k, d), |s.responses| + 1) == s.now + d - s.sweeps[k].start
    {
      ServedAfter(ttl, events, k, d);
    }
    if s.sweeps[k].start != s.now {
      assert Age(Served(ttl, events, k, ttl - 1), |s.responses| + 1) >= ttl;
    }
  }

  /** However scrapes come at any moment of the run, they get bodies younger than
      ttl. */
  ghost predicate AlwaysYoung(ttl: nat, events: seq<Event>) {
    forall n, after: seq<Event> | 0 <= n <= |events| && Readers(after) ::
      ServedYoung(Run(Some(ttl), events[..n] + after), ttl)
  }

  lemma SlowSweepIsServedOld(ttl: nat, events: seq<Event>, k: nat)
    requires ttl > 0 && k < |Run(Some(ttl), events).sweeps| && !Instant(Run(Some(ttl), events).sweeps[k])
    ensures !AlwaysYoung(ttl, events)
  {
    hide Run, Served, Render, Honest;
    var n := PublishedBy(Some(ttl), events, k);
    RunKeepsInvariant(Some(ttl), events);
    assert SweepInvariant(Run(Some(ttl), events).sweeps[k], Run(Some(ttl), events).now);
    ServedAfter(ttl, events[..n], k, ttl - 1);
    ServedInside(ttl, events, n, ttl - 1);
    ServedUnfolds(ttl, events[..n], k, ttl - 1);
    var s, t := Run(Some(ttl), events[..n]), Served(ttl, events[..n], k, ttl - 1);
    assert Age(t, |s.responses| + 1) >= ttl;
    assert t == Run(Some(ttl), events[..n + 1] + ([Tick(ttl - 1)] + [Arrive]));
  }

  /** An age bound of ttl for a whole run: scrapes at any moment of it get bodies
      younger than ttl exactly when no sweep published in it took any time. */
  lemma {:induction false} YoungExactlyWhenInstant(ttl: nat, events: seq<Event>)
    requires ttl > 0
    ensures AlwaysYoung(ttl, events) <==> InstantSweeps(Run(Some(ttl), events))
  {
    hide Run, ServedYoung;
    var u := Run(Some(ttl), events);
    if InstantSweeps(u) {
      forall n, after: seq<Event> | 0 <= n <= |events| && Readers(after)
        ensures ServedYoung(Run(Some(ttl), events[..n] + after), ttl)
      {
        var t := Run(Some(ttl), events[..n] + after);
        RunKeepsInvariant(Some(ttl), events[..n] + after);
        forall k | 0 <= k < |t.sweeps| ensures Instant(t.sweeps[k]) {
          if t.sweeps[k].phase.Published? {
            ReadersSeeTheRun(ttl, events, n, after, k);
            assert Instant(u.sweeps[k]);
          }
        }
        InstantIsYoung(t, ttl);
      }
    } else {
      var k :| 0 <= k < |u.sweeps| && !Instant(u.sweeps[k]);
      SlowSweepIsServedOld(ttl, events, k);
    }
  }

  const ONE_MISS: seq<Event> := [Arrive, Begin(0)]

  /** A body at least ttl old, by any excess: the sweep takes `d`, and the cache
      answers once more just before it expires. */
  lemma ServedOldBody(ttl: nat, d: nat, readings: seq<Reading>)
    requires ttl > 0 && d > 0
    ensures var s := Served(ttl, ONE_MISS + [Collect(0, readings)] + [Tick(d)], 0, ttl - 1);
            && |s.responses| == 2 && |s.sweeps| == 1 && s.sweeps[0].start == 0
            && s.responses[1] == Response(d + (ttl - 1), Render(readings), 0, true) && Age(s, 1) >= ttl
  {
    hide Render;
    assert ONE_MISS == [] + [Arrive] + [Begin(0)];
    RunOneMore(Some(ttl), [], Arrive);
    RunOneMore(Some(ttl), [] + [Arrive], Begin(0));
    RunOneMore(Some(ttl), ONE_MISS, Collect(0, readings));
    RunOneMore(Some(ttl), ONE_MISS + [Collect(0, readings)], Tick(d));
    ServedAfter(ttl, ONE_MISS + [Collect(0, readings)] + [Tick(d)], 0, ttl - 1);
  }

  // ------------------------------------------------------ monotone freshness

  /** Start of the sweep whose rendering is cached. */
  function CachedStart(s: State): Option<nat> {
    if s.cache.Some? && s.writer < |s.sweeps| then Some(s.sweeps[s.writer].start) else None
  }

  predicate NotOlder(a: Option<nat>, b: Option<nat>) {
    a.Some? ==> b.Some? && a.value <= b.value
  }

  /** The write of a sweep that began before the cached one did. */
  predicate WritesOlder(s: State, ttl: Option<nat>, e: Event) {
    && Publishes(s, e) && ttl.Some?
    && CachedStart(s).Some? && s.sweeps[e.k].start < CachedStart(s).value
  }

  /** A step takes the cache back to an older snapshot exactly when it is such a
      write. */
  lemma StepGoesBackExactly(s: State, ttl: Option<nat>, e: Event)
    requires Invariant(s, ttl)
    ensures !NotOlder(CachedStart(s), CachedStart(Step(s, ttl, e))) <==> WritesOlder(s, ttl, e)
  {
    hide Render;
  }

  ghost predicate NoOlderWrite(ttl: Option<nat>, events: seq<Event>) {
    forall n | 0 <= n < |events| :: !WritesOlder(Run(ttl, events[..n]), ttl, events[n])
  }

  ghost predicate Monotone(ttl: Option<nat>, events: seq<Event>) {
    forall i, j | 0 <= i <= j <= |events| ::
      NotOlder(CachedStart(Run(ttl, events[..i])), CachedStart(Run(ttl, events[..j])))
  }

  lemma PrefixStep(ttl: Option<nat>, events: seq<Event>, n: nat)
    requires n < |events|
    ensures Run(ttl, events[..n + 1]) == Step(Run(ttl, events[..n]), ttl, events[n])
  {
    assert events[..n + 1] == events[..n] + [events[n]];
    RunOneMore(ttl, events[..n], events[n]);
  }

  lemma {:induction false} NeverBackBetween(ttl: Option<nat>, events: seq<Event>, i: nat, j: nat)
    requires i <= j <= |events| && NoOlderWrite(ttl, events)
    ensures NotOlder(CachedStart(Run(ttl, events[..i])), CachedStart(Run(ttl, events[..j])))
    decreases j
  {
    hide Run, Step, CachedStart, WritesOlder;
    if i == j {
    } else {
      NeverBackBetween(ttl, events, i, j - 1);
      PrefixStep(ttl, events, j - 1);
      RunKeepsInvariant(ttl, events[..j - 1]);
      StepGoesBackExactly(Run(ttl, events[..j - 1]), ttl, events[j - 1]);
    }
  }

  /** Freshness of the cache is monotone along a run exactly when no older sweep
      is written over a newer one. */
  lemma {:induction false} MonotoneExactly(ttl: Option<nat>, events: seq<Event>)
    ensures Monotone(ttl, events) <==> NoOlderWrite(ttl, events)
  {
    hide Run, Step, CachedStart, WritesOlder;
    if NoOlderWrite(ttl, events) {
      forall i, j | 0 <= i <= j <= |events|
        ensures NotOlder(CachedStart(Run(ttl, events[..i])), CachedStart(Run(ttl, events[..j])))
      {
        NeverBackBetween(ttl, events, i, j);
      }
    } else {
      var n :| 0 <= n < |events| && WritesOlder(Run(ttl, events[..n]), ttl, events[n]);
      PrefixStep(ttl, events, n);
      RunKeepsInvariant(ttl, events[..n]);
      StepGoesBackExactly(Run(ttl, events[..n]), ttl, events[n]);
      assert !NotOlder(CachedStart(Run(ttl, events[..n])), CachedStart(Run(ttl, events[..n + 1])));
    }
  }

  // ------------------------------------------------------- order of responses

  /** No scrape, hit or miss, gets an older snapshot than an earlier scrape. */
  ghost predicate InOrder(s: State) {
    && (forall i | 0 <= i < |s.responses| :: s.responses[i].sweep < |s.sweeps|)
    && (forall i, j | 0 <= i <= j < |s.responses| ::
          s.sweeps[s.responses[i].sweep].start <= s.sweeps[s.responses[j].sweep].start)
  }

  /** Start of the sweep in the latest response. */
  function LastStart(s: State): Option<nat> {
    if s.responses != [] && s.responses[|s.responses| - 1].sweep < |s.sweeps|
    then Some(s.sweeps[s.responses[|s.responses| - 1].sweep].start) else None
  }

  /** A miss that answers with an older sweep than the latest response did. */
  predicate AnswersOlder(s: State, e: Event) {
    Publishes(s, e) && LastStart(s).Some? && s.sweeps[e.k].start < LastStart(s).value
  }

  ghost predicate NoOlderAnswer(ttl: Option<nat>, events: seq<Event>) {
    forall n | 0 <= n < |events| :: !AnswersOlder(Run(ttl, events[..n]), events[n])
  }

  /** With a ttl, the cache holds what the latest response was. */
  ghost predicate LastIsCached(s: State, ttl: Option<nat>) {
    (ttl.Some? && s.responses != []) || s.cache.Some? ==>
      && s.cache.Some? && s.responses != []
      && s.responses[|s.responses| - 1].sweep == s.writer < |s.sweeps|
  }

  lemma {:induction false} RunLastIsCached(ttl: Option<nat>, events: seq<Event>)
    ensures LastIsCached(Run(ttl, events), ttl)
    decreases events
  {
    hide Render;
    if events == [] {
    } else {
      RunLastIsCached(ttl, events[..|events| - 1]);
      RunKeepsInvariant(ttl, events[..|events| - 1]);
    }
  }

  lemma OneMoreResponse(s: State, r: Response)
    requires InOrder(s) && r.sweep < |s.sweeps|
    ensures InOrder(s.(responses := s.responses + [r])) <==>
            (LastStart(s).Some? ==> LastStart(s).value <= s.sweeps[r.sweep].start)
  {
    var t := s.(responses := s.responses + [r]);
    assert t.responses[|s.responses|] == r;
    if s.responses != [] && LastStart(s).value > s.sweeps[r.sweep].start {
      assert t.responses[|s.responses| - 1] == s.responses[|s.responses| - 1];
      assert !InOrder(t);
    }
  }

  /** Order depends on the starts of published sweeps only. */
  lemma SameOrder(s: State, t: State)
    requires |s.sweeps| <= |t.sweeps| && t.responses == s.responses
    requires forall i | 0 <= i < |s.responses| :: s.responses[i].sweep < |s.sweeps|
    requires forall i | 0 <= i < |s.responses| ::
               t.sweeps[s.responses[i].sweep].start == s.sweeps[s.responses[i].sweep].start
    ensures InOrder(s) <==> InOrder(t)
    ensures LastStart(s) == LastStart(t)
  {
  }

  lemma StepKeepsOld(s: State, ttl: Option<nat>, e: Event)
    requires Invariant(s, ttl)
    ensures var t := Step(s, ttl, e);
            && |s.sweeps| <= |t.sweeps|
            && forall i | 0 <= i < |s.responses| ::
                 && s.responses[i].sweep < |s.sweeps|
                 && t.sweeps[s.responses[i].sweep].start == s.sweeps[s.responses[i].sweep].start
  {
    hide Render;
    StepExtends(s, ttl, e);
    forall i | 0 <= i < |s.responses|
      ensures s.responses[i].sweep < |s.sweeps|
      ensures Step(s, ttl, e).sweeps[s.responses[i].sweep].start == s.sweeps[s.responses[i].sweep].start
    {
      assert Honest(s, ttl, s.responses[i]);
      assert Follows(s, s.responses[i].sweep, Step(s, ttl, e).sweeps[s.responses[i].sweep]);
    }
  }

  /** The response a step gives, if any. */
  lemma StepResponds(s: State, ttl: Option<nat>, e: Event)
    requires Invariant(s, ttl) && LastIsCached(s, ttl)
    ensures var t := Step(s, ttl, e);
            if Publishes(s, e) then
              && |t.responses| == |s.responses| + 1 && t.responses[..|s.responses|] == s.responses
              && t.responses[|s.responses|].sweep == e.k
              && e.k < |t.sweeps| && t.sweeps[e.k].start == s.sweeps[e.k].start
            else
              t.responses == s.responses
              || (&& |t.responses| == |s.responses| + 1 && t.responses[..|s.responses|] == s.responses
                  && s.responses != [] && t.responses[|s.responses|].sweep == s.responses[|s.responses| - 1].sweep)
  {
    hide Render, Honest;
  }

  /** A step that keeps or breaks the order. */
  lemma StepOrder(s: State, ttl: Option<nat>, e: Event)
    requires Invariant(s, ttl) && LastIsCached(s, ttl) && InOrder(s)
    ensures InOrder(Step(s, ttl, e)) <==> !AnswersOlder(s, e)
  {
    hide Step, InOrder, Invariant;
    var t := Step(s, ttl, e);
    StepKeepsOld(s, ttl, e);
    StepResponds(s, ttl, e);
    var u := t.(responses := s.responses);
    SameOrder(s, u);
    if t.responses == s.responses {
      assert t == u;
    } else {
      var r := t.responses[|s.responses|];
      assert t.responses == s.responses + [r];
      assert t == u.(responses := u.responses + [r]);
      OneMoreResponse(u, r);
    }
  }

  lemma OrderOfPrefix(s: State, ttl: Option<nat>, e: Event)
    requires Invariant(s, ttl) && LastIsCached(s, ttl) && InOrder(Step(s, ttl, e))
    ensures InOrder(s)
  {
    hide Step, Invariant;
    var t := Step(s, ttl, e);
    StepKeepsOld(s, ttl, e);
    StepResponds(s, ttl, e);
    assert forall i | 0 <= i < |s.responses| :: t.responses[i] == s.responses[i];
  }

  /** Responses come in the order of their sweeps' snapshots, with a cache or
      without, exactly when no miss answers with an older sweep than the latest
      response did. */
  lemma {:induction false} ResponsesInOrderExactly(ttl: Option<nat>, events: seq<Event>)
    ensures InOrder(Run(ttl, events)) <==> NoOlderAnswer(ttl, events)
    decreases events
  {
    hide Step, InOrder, AnswersOlder;
    if events == [] {
      assert InOrder(INITIAL) by {
        NothingInOrder();
      }
    } else {
      var init, e := events[..|events| - 1], events[|events| - 1];
      ResponsesInOrderExactly(ttl, init);
      RunKeepsInvariant(ttl, init);
      RunLastIsCached(ttl, init);
      assert forall n | 0 <= n < |init| :: init[..n] == events[..n] && init[n] == events[n];
      if InOrder(Run(ttl, init)) {
        StepOrder(Run(ttl, init), ttl, e);
      }
      if InOrder(Run(ttl, events)) {
        OrderOfPrefix(Run(ttl, init), ttl, e);
      }
      NoOlderAnswerSplits(ttl, events);
    }
  }

  lemma NothingInOrder()
    ensures InOrder(INITIAL)
  {
  }

  lemma NoOlderAnswerSplits(ttl: Option<nat>, events: seq<Event>)
    requires events != []
    ensures var init := events[..|events| - 1];
            NoOlderAnswer(ttl, events) <==>
            NoOlderAnswer(ttl, init) && !AnswersOlder(Run(ttl, init), events[|events| - 1])
  {
    hide Run, AnswersOlder;
    var init := events[..|events| - 1];
    assert forall n | 0 <= n < |init| :: init[..n] == events[..n] && init[n] == events[n];
    assert events[..|events| - 1] == init;
    if NoOlderAnswer(ttl, init) && !AnswersOlder(Run(ttl, init), events[|events| - 1]) {
      forall n | 0 <= n < |events| ensures !AnswersOlder(Run(ttl, events[..n]), events[n]) {
        assert n < |init| ==> !AnswersOlder(Run(ttl, init[..n]), init[n]);
      }
    }
    if NoOlderAnswer(ttl, events) {
      forall n | 0 <= n < |init| ensures !AnswersOlder(Run(ttl, init[..n]), init[n]) {
        assert !AnswersOlder(Run(ttl, events[..n]), events[n]);
      }
    }
  }

  /** With a ttl that is the condition under which the cache itself never goes
      back. */
  lemma {:induction false} CachedResponsesInOrderExactly(ttl: nat, events: seq<Event>)
    ensures InOrder(Run(Some(ttl), events)) <==> NoOlderWrite(Some(ttl), events)
    ensures InOrder(Run(Some(ttl), events)) <==> Monotone(Some(ttl), events)
  {
    hide Run, InOrder, Monotone;
    forall n | 0 <= n < |events|
      ensures AnswersOlder(Run(Some(ttl), events[..n]), events[n])
         <==> WritesOlder(Run(Some(ttl), events[..n]), Some(ttl), events[n])
    {
      RunLastIsCached(Some(ttl), events[..n]);
    }
    ResponsesInOrderExactly(Some(ttl), events);
    MonotoneExactly(Some(ttl), events);
  }

  // ----------------------------------------------------------- single flight

  /** Only the latest sweep may be unpublished, and sweeps began in order. */
  ghost predicate Serial(sweeps: seq<Sweep>) {
    && (forall k | 0 <= k < |sweeps| - 1 :: sweeps[k].phase.Published?)
    && (forall i, j | 0 <= i <= j < |sweeps| && !sweeps[j].phase.Missed? :: sweeps[i].start <= sweeps[j].start)
  }

  lemma {:induction false} NoneInFlight(sweeps: seq<Sweep>)
    requires InFlight(sweeps) == 0
    ensures forall k | 0 <= k < |sweeps| :: sweeps[k].phase.Published?
    decreases sweeps
  {
    if sweeps == [] {
    } else {
      NoneInFlight(sweeps[..|sweeps| - 1]);
    }
  }

  lemma SerialMovesOn(sweeps: seq<Sweep>, later: seq<Sweep>, now: nat)
    requires Serial(sweeps) && |later| == |sweeps|
    requires forall k | 0 <= k < |sweeps| :: SweepInvariant(sweeps[k], now) && MovesOn(sweeps[k], later[k], now)
    requires forall k | 0 <= k < |sweeps| && sweeps[k].phase.Published? :: later[k] == sweeps[k]
    ensures Serial(later)
  {
    forall i, j | 0 <= i <= j < |later| && !later[j].phase.Missed? ensures later[i].start <= later[j].start {
      assert SweepInvariant(sweeps[i], now) && MovesOn(sweeps[i], later[i], now) && MovesOn(sweeps[j], later[j], now);
    }
  }

  lemma StepKeepsSerial(s: State, ttl: Option<nat>, e: Event)
    requires Invariant(s, ttl) && Serial(s.sweeps) && InFlight(Step(s, ttl, e).sweeps) <= 1
    ensures Serial(Step(s, ttl, e).sweeps)
  {
    hide Step, Honest, Lookup;
    var t := Step(s, ttl, e);
    SweepsMoveOn(s, ttl, e);
    if |t.sweeps| > |s.sweeps| {
      assert t.sweeps[..|s.sweeps|] == s.sweeps;
      NoneInFlight(s.sweeps);
    } else {
      StepExtends(s, ttl, e);
      assert forall k | 0 <= k < |t.sweeps| :: Follows(s, k, t.sweeps[k]);
      SerialMovesOn(s.sweeps, t.sweeps, s.now);
    }
  }

  lemma {:induction false} RunIsSerial(ttl: Option<nat>, events: seq<Event>, n: nat)
    requires AtMostInFlight(ttl, events, 1) && n <= |events|
    ensures Serial(Run(ttl, events[..n]).sweeps)
    decreases n
  {
    hide Step, Serial;
    if n == 0 {
      NoSweeps(ttl, events[..n]);
    } else {
      RunIsSerial(ttl, events, n - 1);
      RunKeepsInvariant(ttl, events[..n - 1]);
      PrefixStep(ttl, events, n - 1);
      StepKeepsSerial(Run(ttl, events[..n - 1]), ttl, events[n - 1]);
    }
  }

  lemma NoSweeps(ttl: Option<nat>, events: seq<Event>)
    requires events == []
    ensures Serial(Run(ttl, events).sweeps)
  {
  }

  lemma SerialNeverGoesBack(s: State, ttl: Option<nat>, e: Event)
    requires Invariant(s, ttl) && Serial(s.sweeps)
    ensures !WritesOlder(s, ttl, e) && !AnswersOlder(s, e)
  {
    hide Render;
    if Publishes(s, e) && s.responses != [] {
      assert Honest(s, ttl, s.responses[|s.responses| - 1]);
    }
  }

  /** One scrape at a time keeps the cache and the responses in order, with a ttl
      or without: overlapping misses are the only way back. */
  lemma {:induction false} OneAtATimeIsMonotone(ttl: Option<nat>, events: seq<Event>)
    requires AtMostInFlight(ttl, events, 1)
    ensures Monotone(ttl, events) && InOrder(Run(ttl, events))
  {
    hide Run, InOrder, Monotone, WritesOlder, AnswersOlder, Serial;
    forall n | 0 <= n < |events|
      ensures !WritesOlder(Run(ttl, events[..n]), ttl, events[n]) && !AnswersOlder(Run(ttl, events[..n]), events[n])
    {
      RunIsSerial(ttl, events, n);
      RunKeepsInvariant(ttl, events[..n]);
      SerialNeverGoesBack(Run(ttl, events[..n]), ttl, events[n]);
    }
    MonotoneExactly(ttl, events);
    ResponsesInOrderExactly(ttl, events);
  }

  /** Two misses, the second beginning one instant later and answering first. */
  const OVERLAP: seq<Event> := [Arrive, Arrive, Begin(0), Tick(1), Begin(1)]

  lemma OverlapRun(ttl: Option<nat>, first: seq<Reading>, second: seq<Reading>)
    ensures Run(ttl, OVERLAP + [Collect(0, first)] + [Collect(1, second)])
         == State(1, None, 0, [Sweep(0, 0, Collected(first)), Sweep(0, 1, Collected(second))], [])
  {
    assert OVERLAP == [] + [Arrive] + [Arrive] + [Begin(0)] + [Tick(1)] + [Begin(1)];
    RunOneMore(ttl, [], Arrive);
    RunOneMore(ttl, [] + [Arrive], Arrive);
    RunOneMore(ttl, [] + [Arrive] + [Arrive], Begin(0));
    RunOneMore(ttl, [] + [Arrive] + [Arrive] + [Begin(0)], Tick(1));
    RunOneMore(ttl, [] + [Arrive] + [Arrive] + [Begin(0)] + [Tick(1)], Begin(1));
    Overlapped(ttl, first, second);
  }

  lemma Overlapped(ttl: Option<nat>, first: seq<Reading>, second: seq<Reading>)
    requires Run(ttl, OVERLAP) == State(1, None, 0, [Sweep(0, 0, Running), Sweep(0, 1, Running)], [])
    ensures Run(ttl, OVERLAP + [Collect(0, first)] + [Collect(1, second)])
         == State(1, None, 0, [Sweep(0, 0, Collected(first)), Sweep(0, 1, Collected(second))], [])
  {
    hide Run;
    RunOneMore(ttl, OVERLAP, Collect(0, first));
    RunOneMore(ttl, OVERLAP + [Collect(0, first)], Collect(1, second));
  }

  /** They suffice: the older sweep answers last, out of order, with a ttl or
      without; with one the cache goes back to it. */
  lemma OlderSweepOverwritesNewer(ttl: Option<nat>, first: seq<Reading>, second: seq<Reading>)
    ensures var newer := OVERLAP + [Collect(0, first)] + [Collect(1, second)] + [Write(1)];
            var s, t := Run(ttl, newer), Run(ttl, newer + [Write(0)]);
            && !InOrder(t) && LastStart(s) == Some(1) && LastStart(t) == Some(0)
            && t.responses == [Response(1, Render(second), 1, false), Response(1, Render(first), 0, false)]
            && (ttl.Some? ==> CachedStart(s) == Some(1) && CachedStart(t) == Some(0)
                              && t.cache == Some(Entry(1, Render(first))))
  {
    hide Render;
    var before := OVERLAP + [Collect(0, first)] + [Collect(1, second)];
    OverlapRun(ttl, first, second);
    RunOneMore(ttl, before, Write(1));
    RunOneMore(ttl, before + [Write(1)], Write(0));
    var t := Run(ttl, before + [Write(1)] + [Write(0)]);
    assert t.sweeps[t.responses[1].sweep].start < t.sweeps[t.responses[0].sweep].start;
  }
}
