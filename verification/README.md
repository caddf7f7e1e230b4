# healthkit, verified

A Dafny model of healthkit: the Prometheus renderer and its TTL cache, the
health registry under concurrency, the latency-to-status-to-HTTP pipeline, the
lifecycle of the Kubernetes example, and the RESP framer behind the redis tests.
`dafny verify dfyconfig.toml` checks all of it.

## How the system is modelled

Time is in whole nanoseconds. A check, a query or a PING is a `Future`: the
instant at which it is ready and its value, or `Never`. tokio's `timeout` polls
the value before the timer, so a value that is ready at the limit wins.

A float in the exposition is the decimal numeral printed for it: distinct floats
print distinct numerals, in the same order. Which numeral a duration becomes
(`as_secs_f64`) is a parameter, and the results hold for every conversion.

Code that works by loops and assignments is imperative here: `EscapeLabel`,
`RenderPrometheus`, `RespCommandLen`, and the classes `MetricsState`,
`HealthRegistry`, `Recorder`, `FakeRedis` and `Service` update their fields in
place and are proved against functions of the old state. The matches and
iterator expressions of the source are functions.

Three parts run concurrently and are transition systems besides: scrapes over
one cache (`MetricsCache`), registrations and probes over one registry
(`RegistryMachine`), requests and flag stores in the service (`Lifecycle`). Each
lock-protected block or atomic access is one event, a run is any list of events,
and an event that is not enabled changes nothing; so a lemma over every event
list is a lemma over every interleaving. `RegistryMachine` lets a poll come
arbitrarily late; a *prompt* run is one in which time does not pass a poll or a
join that could happen. `PromptnessNeverBlocks` shows that such runs are never
stuck and `ProbesFinishExactly` which probes they can bring to an end.
`ScrapedRegistry` puts the cache in front of the live registry.

Files: `Types`, `Decimal` (digits), `Exposition` (text format and its reader),
`Prometheus` (renderer), `MetricsCache`, `CacheFreshness`, `Checks` (deadlines,
join, aggregation, groups, HTTP codes), `Registry` (the object and the facade),
`RegistryMachine`, `RegistryProgress`, `FacadeMachine`, `ScrapedRegistry`,
`Pipeline` (sqlx and redis checkers), `Lifecycle`, `Resp` (framer), `RespStream`
(drain-and-refill loop).

## Where the code and its documentation differ

- `with_cache` promises that a check that flips right after a scrape stays
  invisible for up to `ttl` (src/metrics.rs:161-162). A change at some instant is
  seen `ttl` later exactly when no sweep that gets published was under way at
  that instant (`ChangeShownExactly`), so always when none is under way
  (`QuietChangeIsShown`); `ChangeStaysHidden` is a run in which a second sweep
  hides it for longer. The stamp is taken after the sweep, so the age of a body
  has no such bound: it stays below `ttl` exactly when the sweeps take no time
  (`YoungExactlyWhenInstant`, `ServedOldBody`).
- Freshness is not monotone (`OlderSweepOverwritesNewer`). The cache never goes
  back exactly when no sweep is written over one that began later
  (`MonotoneExactly`), and responses come in the order of their snapshots
  exactly when no miss answers with an older sweep than the latest response, with
  or without a cache (`ResponsesInOrderExactly`); with a ttl the two conditions
  are the same, and one scrape at a time satisfies both (`OneAtATimeIsMonotone`).
- `check_liveness` is documented as `Healthy` or `Unhealthy`
  (src/registry.rs:268); it returns the worst status. The two agree exactly when
  no check is degraded or some check is unhealthy
  (`LivenessAsDocumentedExactly`, `DegradedLiveness`).
- `readiness_route` is documented to answer 503 to a degraded aggregate by
  default (src/axum.rs:79-80); the default answers 200. The two agree under the
  same condition (`DefaultRouteAsDocumentedExactly`, `DegradedPassesByDefault`).
- The crate's README (README.md:187) has the facade counter incremented per check
  execution. Group probes emit nothing, and a `check_all` nothing until its last
  check has settled: every execution is counted exactly when no group probe and
  no unfinished `check_all` has run a check (`EveryExecutionCountedExactly`).
  `GroupProbeGoesUncounted` and `HungSiblingGoesUncounted` are runs that miss
  one; in the second, with the deadline disabled, for good.
- In examples/k8s_service.rs the server starts only after `initialized` is
  stored, so its startup probe never fails (`StartupNeverFails`).

## Model

| member | source | states |
|---|---|---|
| Exposition.EscapeLabel | src/metrics.rs:58-69 | the escaping loop produces the escaped form of every label value |
| Exposition.DocumentedEscapes | src/metrics.rs:57-69 | backslash, quote and newline are written as their two-character escapes, anything else as it is |
| Exposition.ScanExactness | src/metrics.rs:57-69 | a reader of escaped labels ends at the quote the writer put there and at no other, and accepts exactly the escaped values, so hostile names cannot break out of a label |
| Exposition.EscapeInjective | src/metrics.rs:58-69 | distinct names stay distinct after escaping |
| Exposition.EscapedHasNoNewline | src/metrics.rs:58-69 | no raw newline survives escaping |
| Exposition.NumberRoundTrip | src/metrics.rs:71-75 | a printed float, of any number of digits, is read back exactly, up to the character that follows it |
| Exposition.ExactOrder | src/metrics.rs:104-108 | exact decimal seconds order durations like the durations themselves |
| Exposition.ExpositionRoundTrip | src/metrics.rs:83-127 | every well-formed exposition text is read back line for line |
| Prometheus.RenderPrometheus | src/metrics.rs:83-127 | the source's pushes print a text that, read back, has line by line the source's metrics, labels and values, each from its own check result: gauge 1, 0.5 or 0 by status, buckets by its seconds, sum and count; for every conversion of durations to floats |
| Prometheus.RenderSpelledOut | src/metrics.rs:77-127 | the same of the rendering as a function: every line spelled out over the check results |
| Prometheus.DocumentedLines | src/metrics.rs:86-123 | how sample, HELP and TYPE lines are written |
| Prometheus.DocumentedTexts | src/metrics.rs:40-55 | gauge values, bucket bounds and a 3 ms duration print as the source and its documentation write them |
| Prometheus.RenderParses | src/metrics.rs:83-127 | rendering and parsing undo each other on documents |
| Prometheus.RenderRoundTrip | src/metrics.rs:77-127 | from the text alone, the name, gauge, 12 bucket counts, sum and count of every result are recovered in order, whatever characters the names contain and whatever floats the durations become |
| Prometheus.RenderInjective | src/metrics.rs:77-127 | two result lists render alike if and only if they agree in length and in every name, status and printed duration |
| Prometheus.RenderDeterminesDurations | src/metrics.rs:106-120 | where the conversion is exact, as below one second, the text determines the durations themselves |
| Prometheus.ExpositionLayout | src/metrics.rs:79-127 | 4 + 15n newline-terminated lines; two families that never interleave, each HELP, TYPE, then samples only |
| Prometheus.HistogramIsCumulative | src/metrics.rs:104-123 | a bucket counts the observation exactly when its seconds are within the bound, counts never decrease, +Inf equals the count |
| Prometheus.BucketsCountDurations | src/metrics.rs:106-113 | for a conversion that rounds in order and hits the bounds, the buckets count exactly the durations within their bounds in nanoseconds |
| Prometheus.ExactRoundsGently | src/metrics.rs:106-108 | exact decimal seconds are such a conversion |
| Prometheus.SeriesUniqueness | src/metrics.rs:83-127 | no two samples share metric name and labels if and only if the check names are pairwise distinct |
| MetricsCache.MetricsState.constructor | src/metrics.rs:147-172 | a new handler state starts with an empty cache and its optional ttl |
| MetricsCache.MetricsState.CachedWithin | src/metrics.rs:194-198 | returns the cached body exactly when it is younger than the limit |
| MetricsCache.MetricsState.Publish | src/metrics.rs:182-191 | returns the rendering and, with a ttl, replaces the cache by it with the current instant |
| MetricsCache.MetricsState.Scrape | src/metrics.rs:175-192 | a hit returns the cached body and keeps the cache; a miss returns and stores its own rendering |
| MetricsCache.StalenessBound | src/metrics.rs:175-198 | in every interleaving what a scrape gets is byte for byte the rendering of one completed sweep, aged, from the cache, less than ttl plus that sweep's start-to-write time, on a miss exactly that time |
| MetricsCache.StampsNeverDecrease | src/metrics.rs:185-189 | cache stamps never go back along a run |
| CacheFreshness.HitsFollowWrite | src/metrics.rs:175-198 | after a write every scrape of the next ttl hits and starts no sweep, whatever other scrapes and writes come in between |
| CacheFreshness.HitsCarryWrite | src/metrics.rs:175-198 | unless another write comes in between, the scrape that wrote and all later ones get the body that was written |
| CacheFreshness.ChangeShownExactly | src/metrics.rs:159-165 | whatever scrapes come at any moment of a run, from ttl after a change on they see sweeps begun since, if and only if no sweep published in the run was under way at the change |
| CacheFreshness.QuietChangeIsShown | src/metrics.rs:159-165 | a change while no sweep is under way is always seen within ttl |
| CacheFreshness.ChangeStaysHidden | src/metrics.rs:159-198 | a run that hides a change right after a scrape for longer than ttl, a second sweep being under way |
| CacheFreshness.YoungAfterWriteExactly | src/metrics.rs:175-198 | the bodies given out in the ttl after a write are all younger than ttl if and only if the written sweep took no time |
| CacheFreshness.YoungExactlyWhenInstant | src/metrics.rs:175-198 | whatever scrapes come at any moment of a run, they get bodies younger than ttl if and only if no sweep published in the run took time |
| CacheFreshness.ServedOldBody | src/metrics.rs:175-198 | a run that gives out a body at least ttl old, by any excess |
| CacheFreshness.StepGoesBackExactly | src/metrics.rs:185-189 | a step takes the cache back to an older snapshot if and only if it writes a sweep that started before the cached one |
| CacheFreshness.MonotoneExactly | src/metrics.rs:175-198 | cached snapshots never go back along a run if and only if no older sweep is written over a newer one |
| CacheFreshness.ResponsesInOrderExactly | src/metrics.rs:175-198 | hits and misses together, cached or not, are answered in the order of their snapshots if and only if no miss answers with an older sweep than the latest response |
| CacheFreshness.CachedResponsesInOrderExactly | src/metrics.rs:175-198 | with a ttl that holds if and only if the cache never goes back, that is no older sweep is written over a newer one |
| CacheFreshness.OneAtATimeIsMonotone | src/metrics.rs:175-198 | with at most one missed scrape in flight the cache and the responses never go back, with a ttl or without |
| CacheFreshness.OlderSweepOverwritesNewer | src/metrics.rs:182-189 | a run in which an older sweep answers after a newer one, and replaces it in the cache if there is one |
| ScrapedRegistry.ServesOneProbe | src/metrics.rs:175-198 | with the registry live, what a scrape gets is byte for byte the rendering of the results of one finished `check_all`, whatever else runs |
| ScrapedRegistry.PromptStaleness | src/metrics.rs:175-198 | in prompt runs with a nonzero deadline a cached body is younger than ttl plus one deadline, an own one at most one deadline old, and it renders the concurrent join of its snapshot |
| ScrapedRegistry.ScrapesAreAnswered | src/metrics.rs:175-192 | every scrape of a run has been answered or is still in flight |
| ScrapedRegistry.MissBegins | src/metrics.rs:182-182 | a miss begins a full probe of the registry as it is then |
| ScrapedRegistry.MissCollects | src/metrics.rs:182-183 | once that probe has finished, the miss takes its results |
| ScrapedRegistry.MissAnswers | src/metrics.rs:183-192 | and answers with their rendering |
| ScrapedRegistry.TimeIsCommon | src/metrics.rs:194-198 | cache and registry share one clock |
| ScrapedRegistry.RegistryIsShared | src/metrics.rs:137-142 | registrations and other probes reach the registry that scrapes probe |
| MetricsCache.MissFollowsOldSweeps | src/metrics.rs:175-189 | a miss with at most c scrapes in flight finds fewer than c sweeps that began in the last ttl |
| MetricsCache.BoundedReExecution | src/metrics.rs:156-192 | with at most c scrapes in flight, any window of length T begins at most c * (T / ttl + 1) sweeps, however late after its miss a sweep begins |
| MetricsCache.ScrapesAreAccountedFor | src/metrics.rs:175-192 | every scrape was served from the cache or missed, and every miss was answered or is still in flight |
| MetricsCache.UncachedScrapesAlwaysSweep | src/metrics.rs:147-154 | without a cache, or with a zero ttl, every scrape sweeps |
| Checks.Timeout | src/registry.rs:291-294 | a deadline always fires by its limit, and a value ready at the limit wins |
| Checks.RunOneIsDue | src/registry.rs:286-309 | a check settles at its latency or the deadline, whichever is earlier, and reports that as its duration; a zero deadline never fires |
| Checks.RunOneReports | src/registry.rs:286-309 | a check that answers within the deadline, or without one, is reported with its own status and no message, or unhealthy with its own error; any other as timed out |
| Checks.JoinExactness | src/registry.rs:239-239 | a join is ready exactly when all parts are, keeps their order, and lasts as long as the slowest, at most their sum |
| Checks.SweepMakespan | src/registry.rs:227-247 | a sweep ends at the maximum of min(latency, deadline), within one nonzero deadline, no later than sequential execution, each result reporting what its own check did |
| Checks.AggregateIsWorst | src/registry.rs:311-322 | the aggregate is the worst observed status, healthy when there is none, and nothing else is |
| Checks.LivenessAsDocumentedExactly | src/registry.rs:268-272 | the returned status is the documented healthy-or-unhealthy one if and only if no check is degraded or some check is unhealthy |
| Checks.DegradedLiveness | src/registry.rs:268-272 | a single degraded check is returned as degraded |
| Checks.AggregatesAgree | src/axum.rs:221-232 | the handlers' own aggregation and the registry's give the same status on every list |
| Checks.AggregatePermutes | src/registry.rs:312-322 | aggregation ignores order |
| Checks.AggregateConcat | src/registry.rs:312-322 | aggregation of a concatenation is the worse of the two |
| Checks.ReadyExactly | src/axum.rs:177-209 | readiness is 200 if every result is healthy, or degraded in the lenient mode, else 503; startup is 200 if every result is healthy, else 503 |
| Checks.DefaultRouteAsDocumentedExactly | src/axum.rs:74-83 | the default route answers as its documentation says if and only if no check is degraded or some check is unhealthy |
| Checks.DegradedPassesByDefault | src/axum.rs:19-31 | under the default configuration a single degraded check answers 200 |
| Checks.CodesAreMonotone | src/axum.rs:177-209 | adding or worsening checks never turns 503 into 200; strict 200 implies lenient 200; the startup rule equals the strict one |
| Checks.GroupRefinesAll | src/registry.rs:249-266 | on one snapshot a group probe returns the order-preserving filter of the full probe, no later |
| Checks.SelectExactly | src/registry.rs:256-266 | a group probe runs all checks of its group and no other, in registration order |
| Checks.GroupResultsExactly | src/registry.rs:249-266 | its results are those that probing everything gives to these checks |
| Checks.GroupsPartition | src/registry.rs:256-266 | named groups and ungrouped checks partition the results of a sweep |
| Checks.ReadinessIsWorstOfGroups | src/registry.rs:274-281 | the overall status is the worst of the group statuses and the ungrouped one; no group is worse than the whole |
| Registry.HealthRegistry.AddCheckInner | src/registry.rs:135-147 | registration appends one entry with its name and group |
| Registry.HealthRegistry.CheckAll | src/registry.rs:236-247 | returns the join of all checks and emits each of its results once, in order |
| Registry.HealthRegistry.CheckGroup | src/registry.rs:256-266 | returns the join of the group's checks and emits nothing |
| Registry.HealthRegistry.CheckReadiness | src/registry.rs:275-281 | returns the aggregate together with all results, each emitted once |
| Registry.HealthRegistry.CheckLiveness | src/registry.rs:268-272 | returns the aggregate alone; all results are emitted all the same |
| Registry.Recorder.Record | src/registry.rs:333-347 | one counter increment for (name, status) and one observation for the name |
| Registry.EmittedExactly | src/registry.rs:333-347 | each counter equals the number of its results, each histogram lists its durations in order, a name's counters add up to its observations |
| RegistryMachine.AsyncRegistrationSafety | src/registry.rs:149-225 | over every run Ok means exactly one entry was appended, with the caller's check, ShuttingDown that none was, an abandoned await at most one |
| RegistryMachine.RegistryIsPushesInOrder | src/registry.rs:135-225 | the registry always holds the completed pushes in lock order, each with the check its call gave, sync and async calls mixed |
| RegistryMachine.AddCheckLands | src/registry.rs:135-147 | a synchronous registration puts its check at the end of the registry it finds, for good |
| RegistryMachine.RepliesAreFinal | src/registry.rs:135-225 | the registry is append-only and a caller's reply stays true |
| RegistryMachine.CallQueues | src/registry.rs:203-217 | an async registration queues its task under the next id |
| RegistryMachine.QueuedTaskRuns | src/registry.rs:217-223 | a queued task that runs appends its caller's entry, awaited or not |
| RegistryMachine.QueuedTaskCancels | src/registry.rs:224-225 | a queued task is cancelled if and only if the runtime is going down |
| RegistryMachine.ResolveAnswers | src/registry.rs:217-225 | a waiting caller is answered Ok exactly when its task has run, ShuttingDown exactly when it was cancelled, and not before |
| RegistryMachine.AbandonedIsGone | src/registry.rs:203-225 | a dropped await is never answered and leaves the task as it is |
| RegistryMachine.ProbeBegins | src/registry.rs:236-266 | a probe begins on a snapshot of the registry as it is, with every slot open |
| RegistryMachine.ClockMoves | src/registry.rs:286-288 | the clock moves by ticks alone |
| RegistryMachine.SnapshotsLinearize | src/registry.rs:236-266 | snapshots are prefixes of the registry, ordered by start, and include every registration that had returned |
| RegistryMachine.OrderedJoin | src/registry.rs:236-309 | in every interleaving a finished probe has one result per selected check, in registration order: the check's own answer if it had answered when it was settled, however late, else a timeout after a nonzero deadline |
| RegistryMachine.PollWhenDue | src/registry.rs:286-309 | a poll settles a check exactly from its due instant on; polled then, it gives `run_one`'s result |
| RegistryMachine.PollReports | src/registry.rs:288-309 | a poll reports what the check answered if it has answered by then, else a timeout |
| RegistryMachine.PromptSweepRefinesJoin | src/registry.rs:227-266 | in every prompt interleaving a probe returns the results and takes the time of the concurrent join of its snapshot, within one nonzero deadline |
| RegistryMachine.Confluence | src/registry.rs:236-266 | two prompt runs with the same snapshot and behaviours agree on results and duration |
| RegistryMachine.SweepsEndWithinDeadline | src/registry.rs:227-247 | in a prompt run a probe in progress is never older than one nonzero deadline, whatever its checks do |
| RegistryMachine.PromptnessNeverBlocks | src/registry.rs:236-247 | time is held back only while a poll or join can make progress |
| RegistryProgress.ProbesFinish | src/registry.rs:227-247 | every prompt run goes on, by polls, joins and time alone, to a prompt run in which a given probe has finished, if each of its checks is due at some time |
| RegistryProgress.HungProbeNeverFinishes | src/registry.rs:286-309 | with the deadline disabled a probe with a check that never answers finishes in no run |
| RegistryProgress.ProbesFinishExactly | src/registry.rs:227-247 | a probe can be brought to its end if and only if each of its checks is due at some time, as every nonzero deadline ensures |
| FacadeMachine.FacadeConservation | src/registry.rs:236-247 | over every run the counters hold the results of finished full sweeps, in total and for each name and status; a name's counters add up to its observations |
| FacadeMachine.EveryExecutionCountedExactly | src/registry.rs:236-266 | the counters cover every execution of a run, finished probe or not, if and only if no group probe and no unfinished full sweep has run a check |
| FacadeMachine.GroupProbeGoesUncounted | src/registry.rs:256-266 | a run with one execution, by a group probe, and a silent facade |
| FacadeMachine.HungSiblingGoesUncounted | src/registry.rs:236-247 | a run whose one execution, beside a hung check without a deadline, is never counted whatever follows |
| Pipeline.SqlxClassification | src/checks/sqlx.rs:81-94 | healthy and degraded exactly for queries that succeed within the effective deadline, below and above the threshold; always on time; the message is a timeout exactly for late queries, the database error exactly for failed ones, and none exactly for successes |
| Pipeline.RedisClassification | src/checks/redis.rs:74-99 | the same for PING, where only the reply PONG counts as success; a wrong reply, a client error, a failed task and a timeout each have their own message |
| Pipeline.NestedDeadlinesAreMonotone | src/registry.rs:286-309 | severity never decreases with latency; degraded is reachable if and only if the threshold lies below the effective deadline |
| Pipeline.RedisAgreesWithSqlx | src/checks/redis.rs:85-98 | a PONG is classified like a successful query |
| Pipeline.SlowerNeverHelps | src/axum.rs:178-195 | among any other results a slower dependency never turns a failing readiness route into a passing one |
| Lifecycle.Service.constructor | examples/k8s_service.rs:69-112 | the service registers database, optional cache, the grouped initialized check and the draining check, in this order, with both flags clear |
| Lifecycle.Service.Start | examples/k8s_service.rs:131-136 | initialization is flagged and the server runs, which are those two steps of the transition system |
| Lifecycle.Service.OnSignal | examples/k8s_service.rs:142-172 | a signal sets the draining flag, the drain step of the transition system |
| Lifecycle.Service.AnswerReadyz | src/axum.rs:187-195 | the readiness handler over the registered checks answers the code of the transition system for the flags it reads |
| Lifecycle.Service.AnswerStartupz | src/axum.rs:197-209 | the startup handler over the init group likewise |
| Lifecycle.RegisteredJobs | examples/k8s_service.rs:69-112 | a probe of the registered checks runs the dependencies and then the two flag checks |
| Lifecycle.ReadyzExactly | src/axum.rs:187-195 | /readyz is 200 if initialized, not draining, and every dependency acceptable to the mode, else 503 |
| Lifecycle.FailingDependency | examples/k8s_service.rs:76-84 | a dependency that fails or has not answered after two seconds turns /readyz to 503 in both modes |
| Lifecycle.StartupzExactly | src/axum.rs:197-209 | /startupz is 200 if initialized and everything else in the init group is healthy, else 503 |
| Lifecycle.FlagsExactly | examples/k8s_service.rs:128-172 | the flags are set exactly by the events: initialized once stored, serving once started after that, draining once a signal has come since |
| Lifecycle.SignalDrains | examples/k8s_service.rs:142-172 | a signal to the running server starts the drain for good |
| Lifecycle.DrainReadExactly | examples/k8s_service.rs:99-108 | a request has read the draining flag if and only if it loaded it, and as it was at its first load: set exactly if a signal had come |
| Lifecycle.EarlyRequestsReadClear | examples/k8s_service.rs:99-108 | a request that loads the flag before any signal reads it as clear |
| Lifecycle.LateRequestsSeeDrain | examples/k8s_service.rs:142-172 | flags latch, and a request that starts after the drain began cannot read it as clear |
| Lifecycle.DrainFailsReadiness | examples/k8s_service.rs:99-108 | every readiness probe that starts after a signal reached the running server answers 503, in both modes, whatever else is registered |
| Lifecycle.ArrivalsAreTaken | examples/k8s_service.rs:134-136 | requests are taken exactly while the server runs |
| Lifecycle.ReadinessEndToEnd | src/axum.rs:187-195 | a readiness probe of the running service answers 200 while no signal has come and its dependencies are acceptable, else 503 |
| Lifecycle.StartupEndToEnd | src/axum.rs:197-209 | a startup probe of the running service answers 200, drain or not, while the rest of the init group is healthy, else 503 |
| Lifecycle.StartupFollowsInitGroup | examples/k8s_service.rs:128-136 | an answered startup probe is 200 if and only if the rest of the init group is healthy, before and during the drain |
| Lifecycle.StartupNeverFails | examples/k8s_service.rs:69-136 | with the dependencies the service registers every answered startup probe is 200 |
| Lifecycle.ReadinessMeansNotDraining | examples/k8s_service.rs:99-132 | an answered readiness probe is 200 if and only if it read the drain flag as clear and its dependencies were acceptable |
| Resp.ReadDigits | src/checks/redis.rs:189-192 | the digit loop computes the scan, or stops where the value leaves a usize |
| Resp.RespCommandLen | src/checks/redis.rs:183-216 | the nested loops compute the framing of the buffer; a frame has at least 3 bytes and lies within the buffer |
| Resp.DecisionSurvivesExtension | src/checks/redis.rs:183-216 | a decision is final: later bytes never change it |
| Resp.FramesEveryCommand | src/checks/redis.rs:180-216 | every command, lenient forms included, is framed exactly whatever follows it |
| Resp.FrameShape | src/checks/redis.rs:180-216 | whatever is framed is one lenient command of at least 3 + 5 argc bytes |
| Resp.FramerExactness | src/checks/redis.rs:180-216 | the framer answers n if and only if the first n bytes are one command |
| Resp.FrameIsPrefixDetermined | src/checks/redis.rs:183-216 | a frame depends on its own bytes only and no shorter prefix is taken for a command |
| Resp.EncodedCommandIsFramed | src/checks/redis.rs:180-216 | a client's encoding is framed exactly, and each strict prefix of it is incomplete |
| Resp.DocumentedBytes | src/checks/redis.rs:180-216 | the bytes of arrays, bulk strings, digits and line ends, and the width of a usize |
| Resp.PingIsFramed | src/checks/redis.rs:180-216 | the client's PING is framed as its 14 bytes, whatever follows |
| Resp.LenientFrames | src/checks/redis.rs:187-213 | no digits mean zero, and any two bytes end a payload |
| Resp.ScanOverflowsExactly | src/checks/redis.rs:189-192 | the digit loop overflows if and only if the number written by the whole run exceeds a 64-bit usize |
| Resp.OverflowsExactly | src/checks/redis.rs:183-216 | the framer overflows if and only if the count does not fit or, after fewer complete bulk strings than the count, a length does not fit or takes the cursor out of range |
| Resp.NoOverflowWithShortNumbers | src/checks/redis.rs:187-213 | no 64-bit overflow in a buffer whose digit runs have at most 18 digits |
| RespStream.FakeRedis.AnswerBuffered | src/checks/redis.rs:160-169 | the inner loop answers and drains every complete command |
| RespStream.FakeRedis.OnRead | src/checks/redis.rs:159-174 | one read extends the buffer and answers what it completes |
| RespStream.FakeRedis.Serve | src/checks/redis.rs:156-176 | the outer loop folds over the reads |
| RespStream.AnswersAreBounded | src/checks/redis.rs:160-169 | every turn of the inner loop removes at least three bytes and the rest stays in the buffer |
| RespStream.RepliesAreBounded | src/checks/redis.rs:156-176 | a connection gets at most one reply per three bytes received |
| RespStream.DrainThenRefill | src/checks/redis.rs:160-173 | draining before a refill or after it is the same |
| RespStream.ChunkingIndependence | src/checks/redis.rs:156-176 | for every stream and every split into reads: same replies, same residual buffer, same fate as framing the whole at once |
| RespStream.StuckExactly | src/checks/redis.rs:156-176 | a connection without a complete command can still get a reply if and only if its buffer begins some command; otherwise it never does, whatever arrives |
| RespStream.OneReplyPerCommand | src/checks/redis.rs:147-176 | pipelined commands and part of a further one, in any pieces, get one reply each and leave exactly the part |

## Left out

- IEEE-754 arithmetic: how `as_secs_f64` rounds is not computed. It adds the seconds and the quotient of the nanoseconds in floats, so 1.118 s prints as 1.1179999999999999; the conversion is a parameter, and what a lemma needs of it (exact below one second, or monotone and exact at the bucket bounds) is its hypothesis.
- The facade's histograms list durations in nanoseconds, not the floats recorded for them.
- Error display texts: a result's message is the error value, with the source's message prefixes; the display wrapper around it is not modelled.
- HTTP routing, JSON bodies, HEAD handling, and the constant `/ping` and `/healthz` handlers; the handlers' 500 branch cannot be reached because the readiness call never fails.
- Sockets, the sqlx and redis clients and their own socket timeouts: a foreign call is a `Future`. A failed reply write, which ends the fake server's thread, is not modelled.
- tokio, `join_all` and the locks are modelled by their contracts; panicking checks and dropped handler futures are not modelled, except the abandoned await of an async registration.
- The closure stored with a check is replaced by its behaviour in each probe; in `MetricsCache` a sweep's results are arbitrary, in `ScrapedRegistry` they come from the registry.
- Builders, `is_ready`, auto-trait impls, and the duplicate framer in tests/redis_check.rs.
