# Verification of the geist-watch core

A Dafny model of the deterministic core of geist-watch, the program that watches a
camera, asks a vision model yes/no questions and turns the answers into events, and
proofs of what that core promises. `dafny verify dfyconfig.toml` checks everything.

## What is modelled

**The confirmation engine** (`src/gw_state.c`). A watch holds up to eight rules. Each is
a small state machine fed with observations (`yes`, `no`, `unknown`) and clock ticks: it
confirms a value once enough agreeing observations span enough time, forgets what it
knows when evidence gets too old, and reports an event when its target *appeared* or was
*sustained*. `Machine` has the transitions of one rule as functions on values;
`Watching` has the objects whose fields the API changes in place, proved to perform those
transitions, with a ghost history that ties every rule of a valid watch to the run of its
own events. Everything else about the engine is proved of runs:

- `History`: the incremental bookkeeping *is* a reading of the whole history (the longest
  agreeing suffix of the observations accepted since sight was last lost, and the latest
  point at which such a suffix was long enough).
- `Appeared`, `Sustained`: when a rule is armed, latches, has an open run, and is
  reported, each as an if-and-only-if over the observations. The machine's bits do not
  occur on the right-hand sides; the exception is `LatchesAt`, which `Appeared.LatchIff`
  gives in terms of the observations.
- `Reporting`: latches and reports counted over whole runs, and when further ticks could
  have made a run report more.
- `Rates`: what each report rests on, how far apart reports must be, and how far apart the
  observations behind them can be.
- `LosingSight`, `Comebacks`: two runs on the same observations; losing sight more often
  never makes up an appearance, with the exact condition under which that is so for restarts.
- `Query`: the pure state query agrees with the tick that would change the state.

**Replay and scoring** (`src/gw_score.c`). `Scenes` is the order of events a scene means,
`Replay` the loop that puts them to a watch, `ReplayRuns`, `ReplayResults` and
`ExtraRestarts` carry the engine's properties over to whole scenes, with real time bounds.
`ReplayLimits`, `LongTicks` and `ReplayExamples` say exactly where these guarantees end.
`Matching` is the greedy matcher with its exchange argument, `GreedyLimits` the converse,
`Scoring` the in-place loops and the metrics, `Wilson` the confidence interval over the
reals.

**Event records** (`src/gw_event.c`). `Calendar` and `Timestamp` are the date arithmetic
and the date-time text; `Json` and `Render` the escaping and the bounded buffer;
`Decoding` reads a record back.

**Regions and manifests** (`src/gw_rules.c`, `src/gw_manifest.c`). `Region` has exact
decimals, parts per million and pixels. `Manifest` says what each tokenised line does,
`ManifestRules` states its rules in the format's own numbers and words, `ManifestParser` is
the parser object with its loops, `ManifestPrinting` a canonical printout and its round trip.

Times are unbounded integers in nanoseconds. Counters that saturate do so here
(`candidate_count` at 2^32 - 1), and 64-bit ranges are kept where they matter (the year
range of a timestamp, the integers a manifest can hold). Division is written out as it is
in C. In-place state is modelled as in-place state; a restart is a ghost event of its own.

## Where the code and its comments differ

The model follows the code.

- **A broken sustained run need not open again.** The comment on `break_run`
  (`src/gw_state.c:145`) says the run may fire again next time. But a single contrary
  observation leaves the confirmed value at the target, and `set_confirmed` returns early
  on an unchanged value (`src/gw_state.c:154`). `Sustained.OpensExactly` gives the
  condition (something else was the confirmed value), `Sustained.BrokenRunMayStayBroken`
  a run where it fails.
- **The matcher's early exit needs more than events in time order.** The comment at
  `src/gw_score.c:199` and `src/gw_bench.h:146` say that each detection takes the earliest
  unmatched event whose window holds it. For the scoring of all detections in time order
  (several may share a time) that holds exactly when no later window begins before an
  earlier one (`Matching.EarlyExitExactly`). Windows may differ from event to event, so
  ordered event times do not suffice: `ReplayExamples.EarlyExitMissesAnEvent` is a scene
  out of the manifest parser whose replay has one detection, scored as false although an
  event is there for it.
- **A detection's time is the time of the tick** that reported it (`src/gw_score.c:115`),
  not the time of the observation, as `src/gw_bench.h:115` has it. For an appearance it is
  less than a tick period later, and the same exactly when the observation falls on a tick
  (`ReplayResults.AppearedDetection`; `ReplayExamples.DetectionComesLater` is a scene
  where it does not). For a sustained event it is never the same: it is the first tick at
  which the run has lasted for the sustain duration (`ReplayResults.SustainedDetection`).
- **The replay guarantees gaps of at most `max_gap` plus one tick**, not `max_gap`: a
  sample is delivered before the tick of the same iteration, which would have expired the
  evidence (`src/gw_score.c:84-108`, `Rates.GapBound`). A gap is noticed exactly when a
  tick of the cadence lies after `max_gap` from the first observation and before the
  second (`ReplayLimits.GapNoticedExactly`), which the samples' times decide; the bound is
  reached (`ReplayExamples.GapUnnoticed`).
- **`pending` is one bit.** Two appearances latched between two ticks are one report
  (`Appeared.ReportIff`, `Reporting.TwoArrivalsOneReport`). In a replay every latched
  appearance has a detection of its own if and only if the tick is no longer than two
  confirmation windows (`LongTicks.ReportPerLatchExactly`), and under the same condition
  further ticks never add a report (`LongTicks.FurtherTicksInReplays`). For a single run,
  further ticks never add a report if and only if everything that was latched was reported
  (`Reporting.FurtherTicksExactly`). What extra ticks never increase is the number of latched
  appearances (`LosingSight.NeverManufactures`).
- **A restart can add an appearance where an observation was refused**
  (`Reporting.RestartAcceptsTheRefused`), because the new process accepts it. Whatever was
  seen, extra restarts never add one if and only if no refused observation could have been
  followed up, before the next restart, by one with another frame that is no older
  (`Comebacks.RestartsExactly`): a matter of frames and times alone. A replay refuses
  nothing, so there extra restarts never add an appearance
  (`ExtraRestarts.RestartsNeverManufacture`).
- **A confirmed `unknown` does not disarm** an appeared rule
  (`Reporting.UnknownDoesNotDisarm`); confirming the target, an expiring tick and a restart
  do, and nothing else (`Appeared.ArmedIff`).
- **A refused record is not erased.** `include/geist_watch.h:307` says that nothing of a
  record that does not fit is written. The buffer then holds an empty text, but behind its
  terminator the beginning of the record (`src/gw_event.c:167-174`), except in a buffer of
  no more than two places (`Render.LeftBehind`); `Render.Render` says what every place of
  the buffer holds.

## Model

| member | source | states |
|---|---|---|
| History.RunStart | src/gw_state.c:211-217 | the longest agreeing suffix of the evidence: everything from the returned index on has the newest value, and the observation before it (if any) has not |
| History.LatestConfirming | src/gw_state.c:227-230 | the prefix returned, if not empty, does confirm a value |
| History.ConfirmedByIsLatest | src/gw_state.c:227-230 | the confirmed value is that of the latest confirming prefix of the evidence; no later prefix confirms anything; `unknown` when none does |
| History.AccumulateExtends | src/gw_state.c:211-217 | the candidate fields after one more observation are those of the longest agreeing suffix of the longer history, the count saturating |
| History.ObserveDescribes | src/gw_state.c:185-232 | an observation is refused exactly when its frame is the newest accepted one's or it is older; if accepted, the state again describes the longer history |
| History.HistoryRefinement | src/gw_state.c:185-263 | after every sequence of observations, ticks and restarts, candidate, count, first time and confirmed value are what the observations accepted since sight was last lost amount to |
| History.StatusOfHistory | src/gw_state.c:195-205 | the newest accepted frame again is a duplicate, whatever its time; another frame that is older than the newest accepted one is stale; everything else is accepted |
| History.FramesCountOnce | include/geist_watch.h:82-87 | with frame numbers that never go back, every frame is accepted at most once between restarts |
| History.EvidenceIsSuffix | src/gw_state.c:259-263 | what still counts as evidence is always the newest part of what was accepted |
| History.LastStep | src/gw_state.c:185-288 | acceptance, confirmation and loss of sight at any step, as the machine decides them, are those of the history |
| Appeared.ArmedIff | src/gw_state.c:160-172 | a rule is armed exactly when the opposite of its target was confirmed at some step and since then neither was the target confirmed nor sight lost; a rule that holds the opposite confirmed is armed, one that is armed does not hold its target confirmed |
| Appeared.LatchIff | src/gw_state.c:153-172 | an appearance is latched exactly where the target is confirmed after its opposite, with no expiring tick, restart or confirmation of the target in between |
| Appeared.PendingIff | src/gw_state.c:281-287 | the pending bit says exactly that an appearance was latched with only observations since |
| Appeared.ReportIff | src/gw_state.c:281-287 | exactly once: a tick reports an appeared rule if and only if it latched since the previous tick or restart |
| Appeared.FiredIff | src/gw_state.c:160-170 | the fired bit says exactly that an appearance was latched and the opposite was not confirmed, nor the rule restarted, since; ticks and lost sight do not clear it |
| Appeared.LatchSound | src/gw_state.c:160-172 | every latched appearance is preceded by a full confirming run of the opposite value, with sight not lost and no other appearance latched in between |
| Appeared.LatchBetween | src/gw_state.c:160-172 | where the opposite and later the target are confirmed, with sight not lost in between, an appearance is latched after the one and no later than the other |
| Appeared.AppearedSound | src/gw_state.c:160-172 | every reported appearance is witnessed by a full confirming run of the opposite, then a full confirming run of the target, with no expiring tick, restart or other appearance between their completions |
| Appeared.SilentUntilAbsence | include/geist_watch.h:186-191 | a rule that starts up on its target never latches or reports before the opposite has been confirmed |
| Sustained.SustainedStep | src/gw_state.c:173-230 | one step opens, breaks, keeps or reports a run, in terms of what the step is in the history |
| Sustained.HoldingConfirms | src/gw_state.c:173-181 | while a run is open its target is the confirmed value |
| Sustained.SustainedRefinement | src/gw_state.c:173-288 | the open-run fields are a reading of the history: there is an open run exactly if one was opened and nothing broke it, it starts at the observation that opened it, and it has fired exactly if some tick found it ripe |
| Sustained.RunIsUnique | src/gw_state.c:173-181 | at most one run is open |
| Sustained.ReportIff | src/gw_state.c:275-287 | exactly once: a tick reports a sustained rule if and only if it is the first tick, and one that does not lose sight, by which an open run has lasted for the sustain duration |
| Sustained.OpensExactly | src/gw_state.c:145-156 | with no run open, confirming the target opens one if and only if the confirmed value before was not the target |
| Sustained.BrokenRunMayStayBroken | src/gw_state.c:223-229 | a concrete run in which the target is confirmed anew after a break and no run opens |
| Rates.EvidencePosition | src/gw_state.c:207-217 | every piece of evidence was accepted at a step from which on sight was never lost, and exactly the evidence after it was accepted since |
| Rates.ConfirmingRun | include/geist_watch.h:126-131 | a confirmation rests on at least the required number of observations, spanning at least the window, all of the value, none other accepted in between and sight never lost |
| Rates.SustainedSound | src/gw_state.c:211-279 | every reported sustained event has a confirming observation at least the sustain duration before the tick, whose candidate run began at least the window earlier; from that beginning to the tick every accepted observation is the target and sight was never lost |
| Rates.AbsenceBetween | src/gw_state.c:160-172 | between two latched appearances the opposite of the target was confirmed |
| Rates.AppearanceRate | src/gw_state.c:153-232 | two latched appearances complete at least two windows apart, with at least twice the required number of accepted observations after the first, whatever ticks and restarts lie in between |
| Rates.ReportsNeedDoubt | src/gw_state.c:153-180 | between two reports of a sustained rule there is a moment at which its target was not the confirmed value |
| Rates.RunOpenedAfresh | src/gw_state.c:173-180 | the second of two sustained reports rests entirely on observations accepted after the first report |
| Rates.SustainedRate | src/gw_state.c:173-279 | two reports of one sustained rule are more than the sustain duration plus the window apart, when observations after a tick were captured after it |
| Rates.NotLate | src/gw_state.c:237-242 | a tick that does not lose sight is at most the maximal gap after the newest observation |
| Rates.LostExactly | src/gw_state.c:237-263 | between two observations with none accepted in between, sight is lost exactly when there is a restart or a tick more than the maximal gap after the first; how far apart the two are does not matter |
| Rates.GapBound | src/gw_score.c:84-108 | successive observations with sight not lost between them are at most the maximal gap plus one tick period apart |
| LosingSight.SharedObservation | src/gw_state.c:153-232 | one observation put to two machines, one lagging behind the other, leaves it lagging: weaker candidate, no more appearances, and an armed lead already paid for |
| LosingSight.FreshAccepts | src/gw_state.c:195-205 | an observation with a new frame and no earlier time is never refused |
| LosingSight.Simulates | src/gw_state.c:153-274 | the simulation over all runs without comebacks: with ticks and restarts inserted, the second run lags behind the first, or it accepted what the first refused, is no appearance ahead, and accepts nothing more until a restart |
| LosingSight.SimulatesTicks | src/gw_state.c:153-274 | the same for inserted ticks alone, in any run |
| LosingSight.NeverManufactures | src/gw_state.c:264-274 | extra ticks, anywhere in any run, and extra restarts, anywhere in a run without comebacks, never increase the number of latched appearances; a comeback is a refused observation followed, before any restart, by one with another frame that is no older |
| Comebacks.SameRefused | src/gw_state.c:195-205 | which observations are refused does not depend on what was seen |
| Comebacks.ComebackManufactures | src/gw_state.c:195-205 | whatever the frames and times of a run with a comeback, there are values and a rule for which it latches nothing, and one restart more makes it latch |
| Comebacks.RestartsExactly | src/gw_state.c:79-88 | for given frames and times: extra restarts never add an appearance, for any appeared rule and any values, if and only if there is no comeback |
| Reporting.NoMoreReportsThanLatches | src/gw_state.c:281-287 | no more is reported than was latched, and what is pending counts too |
| Reporting.PromptReportsAll | src/gw_state.c:281-287 | with a tick right after every latched appearance, the run is otherwise the same and reports every one of them |
| Reporting.FurtherTicksExactly | src/gw_state.c:281-287 | further ticks (in order, if everything in the run is) never make a run report more if and only if it reports every appearance that it latches |
| Reporting.TwoArrivalsOneReport | include/geist_watch.h:194-198 | a run that latches two appearances and reports one, and the same run with one more tick, which reports both |
| Reporting.UnknownDoesNotDisarm | src/gw_state.c:159-172 | a run in which `unknown` is confirmed between absence and presence, and the appearance is latched |
| Reporting.RestartAcceptsTheRefused | src/gw_state.c:195-205 | a run that refuses an observation and latches nothing, and the same run with a restart before it, which latches an appearance |
| Query.TicksMatch | src/gw_state.c:259-288 | after ticks no later than the query, either nothing but firing bits moved, or the query finds the evidence expired too |
| Query.QueryAgreesWithTicks | src/gw_state.c:298-329 | the query reports the same confirmed value, health, age, confirmations and sustained time whatever ticks up to then are inserted since the last observation |
| Query.ViewOfHistory | include/geist_watch.h:148-172 | age, health (offline after ten times the gap), confirmed value and confirmation count of a query, in terms of the accepted observations alone; the sustained time is never negative, and zero once sight is lost |
| Query.SustainedView | include/geist_watch.h:167-169 | a query reports a sustained time of d > 0 exactly when a run opened d ago, was not broken, and sight is not lost |
| Query.AppearedNeverRuns | src/gw_state.c:325-327 | an appeared rule reports no sustained time |
| Query.AppearedFired | src/gw_state.c:306-310 | a query says that an appeared rule has fired exactly if an appearance was latched and the opposite was not confirmed, nor the rule restarted, since |
| Query.SustainedFired | src/gw_state.c:306-310 | a query says that a sustained rule has fired exactly if a run is open and some tick since found it to have lasted |
| Watching.Rule.ResetCandidate | src/gw_state.c:139-143 | drops the candidate and nothing else |
| Watching.Rule.BreakRun | src/gw_state.c:146-150 | closes the run and un-fires, leaving the confirmed value and the candidate |
| Watching.Rule.SetConfirmed | src/gw_state.c:153-183 | the whole new state: an unchanged value changes nothing, an edge lets the rule react |
| Watching.Rule.Observe | src/gw_state.c:193-231 | performs the transition that the run theorems are about, and answers the status of the history reading |
| Watching.Rule.EvidenceExpired | src/gw_state.c:237-242 | agrees with the expiry test of the run theorems |
| Watching.Rule.Tick | src/gw_state.c:257-287 | performs the tick transition and says whether the rule reports |
| Watching.RunOfAppends | src/gw_state.c:185-296 | one more thing told to a watch changes the run of the rules it concerns and of no other |
| Watching.FiredExactly | src/gw_state.c:281-287 | a tick reports a rule exactly when the rule's own run says so, once, in index order |
| Watching.Watch.constructor | include/geist_watch.h:207-213 | a zeroed watch is valid, with no rules and no history |
| Watching.Watch.Init | src/gw_state.c:79-88 | every rule is gone and the clock is unset; recorded as a restart; an id that does not fit is refused, leaving a valid empty watch |
| Watching.Watch.AddRule | src/gw_state.c:90-136 | refuses a ninth rule, a configuration that could never confirm or fire, and an id that does not fit, in that order; otherwise appends a zeroed rule and gives its index; the watch stays tied to its history |
| Watching.AddStatusExactly | src/gw_state.c:95-128 | which refusal is given, in this order: a ninth rule, a configuration that could never confirm or fire, an identifier without 1 to 31 characters |
| Watching.CopyIdExactly | src/gw_state.c:67-77 | a camera identifier has 1 to 31 characters |
| Watching.Watch.Observe | src/gw_state.c:185-232 | an unknown rule is refused; otherwise the history grows by this observation, every rule stays in the state of its own run, and the answer is that of the run |
| Watching.Watch.TickRules | src/gw_state.c:256-288 | every rule takes its tick; the reported ones, in order, go into the array as far as they fit; all are drained and counted |
| Watching.Watch.Tick | src/gw_state.c:244-296 | time going backwards is refused and changes nothing; otherwise the rules whose own runs report are delivered in order, all are counted, and the status says whether they fitted |
| Watching.Watch.GetState | src/gw_state.c:298-329 | answers the view of the rule's run (what each of its fields means is said by Query.ViewOfHistory, SustainedView, AppearedFired and SustainedFired) and changes nothing |
| Scenes.Skip | src/gw_score.c:69-84 | everything passed over has come due and the first one left has not |
| Scenes.AcceptedExactly | src/gw_score.c:36-47 | setting up a watch for a scene succeeds exactly when the camera id fits and there are at most eight rules, all usable, with ids that fit |
| Replay.Setup | src/gw_score.c:36-47 | initialises and adds every rule, stopping at the first refusal; the history grows by one restart |
| Replay.Deliver | src/gw_score.c:85-103 | a sample is put to the rules it labels, in index order, and to no other |
| Replay.DeliverDue | src/gw_score.c:84-104 | exactly the samples that have come due are delivered, in order |
| Replay.RestartDue | src/gw_score.c:69-82 | exactly the restarts that have come due are taken, and none of them fails in an accepted scene |
| Replay.Iterate | src/gw_score.c:69-111 | one iteration takes the watch from its timeline to the next; the tick never fails, and fires what the rules' runs report |
| Replay.Record | src/gw_score.c:112-118 | detections are appended at the tick's time, as far as they fit, and all are counted |
| Replay.Attribute | src/gw_score.c:126-135 | the interval is added to the observed column if the rule holds a confirmed value (counted by ReplayResults.HeldTicksCount), else to the unknown one, and to none without a rule |
| Replay.Walk | src/gw_score.c:33-146 | refuses a scene the watch refuses; otherwise terminates at the first iteration that has delivered everything and reached the last sample, having counted exactly the scene's detections, recorded as many as fit, and accounted for every tick but the last; none of this depends on the capacity or on the rule asked about |
| Replay.Replay | src/gw_score.c:148-154 | the same without time accounting |
| ReplayRuns.ProjectTimeline | src/gw_score.c:62-111 | what concerns one rule in a replay is a run made of restarts, ticks and that rule's own labels |
| ReplayRuns.DueNext | src/gw_score.c:84-104 | what an iteration delivers was captured after the tick before it, within one tick period |
| ReplayRuns.RestartsComeFirst | src/gw_score.c:63-104 | within an iteration restarts come before answers: a sample due with a restart reaches the new process |
| ReplayRuns.RuleLinePaced | src/gw_score.c:62-111 | such a run has fresh frames, observations later than the ticks before them, and a tick within one period before any observation that is further than that from an earlier one |
| ReplayRuns.CapturedInIteration | src/gw_score.c:84-108 | what a rule is told in an iteration was captured less than a tick period before the iteration's tick, or at it |
| ReplayRuns.TickOnGrid | src/gw_score.c:62-111 | every tick of a rule's run is that of an iteration, at its place |
| ReplayRuns.TickAfter | src/gw_score.c:84-108 | an observation comes before exactly those ticks that are not earlier than it |
| ReplayRuns.FirstTickFrom | src/gw_score.c:62 | the first tick not before a time is at that time exactly when it is the time of a tick |
| ReplayResults.NothingRefused | src/gw_score.c:90-101 | no observation of a scene with ordered samples is ever refused |
| ReplayResults.NothingPending | src/gw_score.c:62-82 | no appearance is pending at a loop head, so no restart drops one |
| ReplayResults.DoneWhenLastDue | src/gw_score.c:120-139 | with ordered samples the replay is over exactly when the last one has come due |
| ReplayResults.HeldTicksCount | src/gw_score.c:126-135 | the ticks accounted as observed are those after which the rule's answers so far, read as a history, confirm a value |
| ReplayResults.AccountsForAllTime | src/gw_score.c:120-135 | observed plus unknown time is the fewest whole ticks that reach from the first sample to the last |
| ReplayResults.DetectionTimes | src/gw_score.c:112-118 | detections come in time order, none after the last tick |
| ReplayResults.DetectionsOfRule | src/gw_score.c:106-118 | of all detections, those of one rule are the reports of the rule's own run, in order |
| ReplayResults.RulesDoNotInterfere | src/gw_score.c:86-118 | replaying a scene and keeping one rule's detections and held time is replaying the scene with that rule only; both end after the same number of iterations, and the smaller scene is accepted if the larger one is |
| ReplayResults.GapsBounded | src/gw_score.c:84-108 | while sight is not lost, successive observations in a replay are at most the maximal gap plus one tick apart |
| ReplayResults.FallsDueInTime | src/gw_state.c:275-279 | a run falls due at the first tick at which it has lasted for the sustain duration |
| ReplayResults.SustainedDetection | src/gw_score.c:62-118 | every detection of a sustained rule is backed by a stretch of the scene without a contrary answer, restart or expiring tick, long enough, with successive answers at most the maximal gap plus one tick apart; its time is less than a tick period after the run it reports was due, and later than the observation that opened the run |
| ReplayResults.AppearedDetection | src/gw_score.c:62-118 | every detection of an appeared rule is backed by a confirmed absence, then a confirmed presence, with sight not lost in between; its time is less than a tick period after the observation that completed it, and equal to that observation's time exactly when that is the time of a tick |
| ReplayResults.SustainedDetectionRate | src/gw_score.c:62-118 | two detections of one sustained rule are more than the sustain duration plus the window apart |
| ReplayResults.AppearanceDetectionRate | src/gw_score.c:62-118 | two latched appearances in a replay are at least two windows and twice the required number of answers apart, across expiries and restarts |
| ExtraRestarts.RestartsNeverManufacture | src/gw_score.c:69-82 | a scene with more restarts latches no more appearances |
| ExtraRestarts.RestartsCut | src/gw_score.c:69 | with restarts in time order, those taken so far are exactly those that have come due |
| ExtraRestarts.OneMoreRestart | src/gw_score.c:69-82 | putting one more restart anywhere into a scene's ordered list is such a scene |
| ReplayLimits.GapNoticedExactly | src/gw_score.c:84-108 | between two successive answers to a rule, sight is lost exactly when there was a restart or a tick of the cadence lies after the first one plus the maximal gap and before the second one |
| ReplayLimits.IterationReports | src/gw_score.c:106-118 | an iteration reports an appeared rule exactly if the rule latched in it |
| ReplayLimits.EachReportedExactly | src/gw_score.c:106-118 | a rule has no more detections than latched appearances, and as many exactly if no iteration latched two |
| ReplayLimits.ReportPerLatch | src/gw_score.c:106-118 | with a tick no longer than two confirmation windows every latched appearance has a detection of its own |
| ReplayLimits.ReportsOfLine | src/gw_score.c:106-118 | the reports of a rule's run in a replay are the iterations that report it |
| ReplayLimits.ReportsAllExactly | src/gw_score.c:106-118 | further ticks never add a report to a rule's run exactly if each of its latched appearances has a detection |
| LongTicks.BurstLatchesTwice | src/gw_score.c:84-118 | for every appeared rule and every longer tick up to the gap there is a scene in which one iteration latches twice |
| LongTicks.ReportPerLatchExactly | src/gw_score.c:84-118 | for a rule and a tick: in all scenes with that rule and tick every latched appearance has a detection of its own, if and only if the tick is no longer than two confirmation windows |
| LongTicks.FurtherTicksInReplays | src/gw_score.c:62-118 | for a rule and a tick: further ticks never make a replay's run of the rule report more, in any scene with that rule and tick, if and only if the tick is no longer than two confirmation windows |
| ReplayExamples.GapUnnoticed | src/gw_score.c:84-108 | a scene a manifest can describe, in which two answers are the maximal gap plus one tick apart and no sight was lost |
| ReplayExamples.BurstIsPrintable | src/gw_manifest.c:258-393 | the scene in which one iteration latches twice is one that a manifest can describe, for rules and ticks in whole milliseconds and no more answers than it can hold |
| ReplayExamples.DetectionComesLater | src/gw_bench.h:113-117 | a scene a manifest can describe, whose one detection is five milliseconds later than the observation that completed it |
| ReplayExamples.EarlyExitMissesAnEvent | src/gw_score.c:213-216 | a scene that comes out of the parser, with events in time order, whose one detection is matched to nothing although it lies in the window of an unmatched event |
| Matching.Pick | src/gw_score.c:208-224 | what is picked is an open event of the rule whose window holds the detection, and every open event passed over had ended |
| Matching.GreedyIsAssignment | src/gw_score.c:203-228 | the matching is one-to-one, within windows, and of the rule's own detections and events |
| Matching.PickNone | src/gw_score.c:213-216 | with window starts in order, a detection matched to nothing lies in no open window |
| Matching.Exchange | src/gw_score.c:218-222 | any assignment can be rearranged so that giving up this detection and the event picked for it costs one pair only |
| Matching.GreedyFromHere | src/gw_score.c:203-228 | at every detection, what is matched so far plus any assignment of the rest is at most what the matcher ends with |
| Matching.GreedyIsOptimal | src/gw_score.c:203-228 | with both window ends and the detections in order, no one-to-one in-window assignment is larger |
| Matching.CommonScenesAreSorted | src/gw_score.c:199-202 | one match window for all of a rule's events, or windows that do not overlap, have both ends in order |
| Matching.GreedyIsHalfOptimal | src/gw_score.c:203-228 | with only the window starts in order the matcher finds at least half of the best assignment |
| GreedyLimits.LeftUnsorted | src/gw_score.c:213-216 | two events whose windows begin in the wrong order: a list of detections in time order on which a larger assignment exists |
| GreedyLimits.RightUnsorted | src/gw_score.c:218-222 | the same for two events whose windows end in the wrong order |
| GreedyLimits.GreedyOptimalExactly | src/gw_score.c:203-228 | for windows that are not empty, as in every parsed scene: no assignment is larger than the matcher's, on any list of detections in time order, if and only if both ends of the windows are in order |
| Matching.CrowdMisses | src/gw_score.c:213-216 | with two events of a rule in the wrong order, enough detections at the start of the later one's window: not each takes the earliest unmatched event |
| Matching.EarlyExitExactly | src/gw_bench.h:146-147 | in the scoring of every list of detections in time order each detection takes the earliest unmatched event whose window holds it, if and only if no later event's (non-empty) window begins before an earlier one's |
| Scoring.Search | src/gw_score.c:208-224 | the inner loop finds what the matching prescribes |
| Scoring.Match | src/gw_score.c:197-234 | in place, the rule's detections get exactly the matching's answers, each an event of the rule with the detection between `before` ahead of it and `after` behind it, and all others are left alone; true and false positives add up to the rule's detections, true positives and false negatives to its events |
| Scoring.AnswersAreRight | src/gw_score.c:207-224 | every answer is an event of the rule whose window, from `at - before` to `at + after`, holds the detection; no event answers two of the rule's detections; nothing else about a detection changes |
| Scoring.UnansweredIsRight | src/gw_score.c:208-227 | with window starts in order, a detection stays unanswered only if every event of the rule whose window holds it answers an earlier detection |
| Scoring.TruePositivesAreAnswers | src/gw_score.c:218-227 | true positives are the rule's detections that have an answer |
| Scoring.CountOpen | src/gw_score.c:230-234 | false negatives are the rule's events that nothing answered |
| Scoring.ScoringOrder | src/gw_score.c:203-228 | scoring two rules in either order gives the same answers |
| Scoring.ReplayIsScoredOptimally | src/gw_score.c:199-228 | for the detections of a replay and ordered window ends, true positives are the size of a largest assignment |
| Scoring.Availability | src/gw_score.c:181-186 | observed time is one tick for each tick but the last after which the rule's answers confirm a value, unknown time the rest, availability the observed share; zero for an instantaneous or refused scene |
| Scoring.Score | src/gw_score.c:188-243 | all of the above as one result; a rule the scene does not have is refused and nothing is changed; precision and recall come with their intervals, credible ones wherever the root that is taken is exact |
| Wilson.LowerBounds | src/gw_score.c:167-175 | the unclamped lower end is between 0 and the share, and above 0 if anything succeeded |
| Wilson.Mirror | src/gw_score.c:167-172 | swapping successes and failures reflects the interval |
| Wilson.WilsonInterval | src/gw_score.c:160-177 | the interval lies in [0, 1], holds the share, takes neither clamp, and the one of n - k is its mirror image |
| Wilson.WilsonAtTheEnds | src/gw_score.c:156-159 | an end is pinned only by a hopeless or a perfect score, and then exactly; the other end stays strictly inside |
| Wilson.SqrtGivesRoot | src/gw_score.c:172 | the radicand is never negative, so an exact square root gives its root |
| Wilson.WilsonLaw | src/gw_score.c:156-177 | both ends satisfy the law that defines Wilson's interval at 95 %: n (p - end)² = 1.959963985² end (1 - end) |
| Wilson.WilsonCredible | src/gw_score.c:160-177 | where that root is exact, the interval computed satisfies all of this, that of no trials being zero |
| Calendar.CivilIsRight | src/gw_event.c:24-38 | every day number, negative ones included, becomes a date of the proleptic Gregorian calendar that is that many days from 1970-01-01 |
| Calendar.CivilInverts | src/gw_event.c:24-38 | every date of the calendar comes back from its day number |
| Calendar.CivilSteps | src/gw_event.c:24-38 | the next day number becomes the calendar's next day, across months, years and leap days |
| Calendar.CivilEpoch | src/gw_event.c:20-24 | day 0 is 1970-01-01 |
| Calendar.DayNumberCounts | src/gw_event.c:24-38 | the reference day number counts days: the calendar's next day has the next number |
| Calendar.DayNumbersAscend | src/gw_event.c:24-38 | later dates have larger day numbers |
| Calendar.YearOfEraFits | src/gw_event.c:28-31 | the closed form for the year of a 400-year era names the year that the day falls into |
| Timestamp.FieldsAreRight | src/gw_event.c:45-56 | the fields are a valid date and time, and the value rounded down to the millisecond, for every 64-bit nanosecond value |
| Timestamp.FormatRoundTrip | src/gw_event.c:45-62 | the text has exactly 24 characters in the date-time form of section 5.6 of RFC 3339 and reads back as the value rounded down to the millisecond |
| Timestamp.FormatOrder | src/gw_event.c:40-62 | timestamps sort as text as they sort in time, to the millisecond |
| Json.EscapeReads | src/gw_event.c:72-102 | the replacement of a character is never empty, never begins with a bare quotation mark, and reads back as the character |
| Json.EscapeIs | src/gw_event.c:74-101 | short escapes for the five characters that have one, four lower-case hexadecimal digits for every other control character, everything else unchanged |
| Json.EscapeAllReads | src/gw_event.c:69-110 | an escaped string, read by the rules of section 7 of RFC 8259, is the original, and the reader stops exactly at its closing quotation mark |
| Json.EscapeAllConcat | src/gw_event.c:147-154 | escaping distributes over concatenation, so the parts of an event id may be escaped one by one |
| Json.DecimalReads | src/gw_event.c:153-165 | an unsigned decimal reads back, whatever non-digit follows it |
| Json.SignedReads | src/gw_event.c:163-165 | so does a signed one |
| Render.AppendText | src/gw_event.c:112-119 | the buffer holds as much of the longer ideal text as fits, nothing past the capacity is written, and the length is the ideal one |
| Render.AppendEscaped | src/gw_event.c:69-110 | the same for the escaped text |
| Render.AppendField | src/gw_event.c:121-125 | the same for a key and its quoted value |
| Render.AppendFields | src/gw_event.c:138-161 | the record up to its timestamps is appended, with the ideal length |
| Render.Render | src/gw_event.c:127-178 | the size needed does not depend on the buffer; the call succeeds exactly when the record and its terminator fit, and then the buffer holds them and is otherwise untouched; a record that does not fit leaves an empty text, behind its terminator as much of the record as there was room for, and the last place untouched |
| Render.SustainedMsIsRight | src/gw_event.c:163-164 | the duration is printed in whole milliseconds of 1000000 ns, rounded towards zero |
| Render.LeftBehind | src/gw_event.c:167-174 | a refused record changes nothing behind the terminator, whatever was in the buffer, if and only if the buffer has no more than two places |
| Render.FormatIsPlain | src/gw_event.c:160-161 | timestamps are not altered by escaping |
| Decoding.RecordRoundTrip | src/gw_event.c:127-178 | a record, read by the keys that a consumer expects, gives back the event's identity, type, sequence number and confirmations, its times rounded down to the millisecond and its duration in whole milliseconds |
| Decoding.RecordInjective | src/gw_event.c:127-178 | equal records tell of the same event, to the resolution a record carries |
| Region.DecimalPpm | src/gw_rules.c:61-95 | the scan accepts exactly the normalised decimals, with their value, and stops where they end |
| Region.Fraction | src/gw_rules.c:75-90 | the fraction scan: a point needs digits, none after a missing point |
| Region.Places | src/gw_rules.c:80-90 | the digit loop counts six places and refuses a seventh |
| Region.PpmExact | src/gw_rules.c:61-95 | a decimal with one to six places is accepted if and only if it is at most 1, and its value in parts per million is exact |
| Region.PpmWhole | src/gw_rules.c:61-95 | without a point exactly 0 and 1 are accepted, leading zeros allowed |
| Region.PpmPlaces | src/gw_rules.c:75-90 | a point with no digit or more than six digits after it is refused |
| Region.PpmRoundTrip | src/gw_rules.c:61-95 | every number of parts per million prints to a decimal that reads back as it |
| Region.SkipSpaces | src/gw_rules.c:97-102 | skips blanks and tabs and nothing else |
| Region.PpmNeedsDigit | src/gw_rules.c:62-64 | a decimal begins with a digit |
| Region.ParseRegion | src/gw_rules.c:104-144 | accepts exactly four comma-separated decimals that make a non-empty rectangle in the frame; what it returns has a width and a height and does not leave the frame |
| Region.AcceptedIsInFrame | src/gw_rules.c:133-141 | no text whatever is accepted as an empty region or as one that leaves the frame |
| Region.RegionExactly | src/gw_rules.c:104-144 | four values with any blanks and tabs around them are accepted, as they are, if and only if width and height are not zero, x + width and y + height are at most 1, and nothing follows |
| Region.NoComma | src/gw_rules.c:119-126 | nothing but a comma separates values |
| Region.RegionRoundTrip | src/gw_rules.c:104-144 | every non-empty rectangle in the frame prints to a text that parses back to it |
| Region.AxisExact | src/gw_rules.c:146-175 | on each axis no clamp is taken, the start is the exact one rounded down, and the length the exact one rounded down or one pixel |
| Region.PixelsExact | src/gw_rules.c:146-175 | a region becomes a non-empty rectangle inside the picture, its corner within one pixel below the exact one |
| Region.PixelsRefused | src/gw_rules.c:148-150 | pixels are refused exactly for a picture without width or height |
| Region.AcceptedPixels | src/gw_rules.c:104-175 | whatever text is accepted as a region gives a non-empty rectangle inside every picture |
| Manifest.FindRule | src/gw_manifest.c:94-102 | the first rule with the identifier, and none only if no rule has it |
| Manifest.LineKeeps | src/gw_manifest.c:284-363 | every accepted line keeps the scene consistent: bounds, unique ids, orders, labels and truths of declared rules only |
| Manifest.ParsedIsWellFormed | src/gw_manifest.c:258-393 | every accepted manifest has samples, truths and restarts in time order, unique rule ids, a name, a camera, rules, samples, and a positive tick no coarser than any rule's gap |
| Manifest.ParsedIsReplayable | src/gw_manifest.c:365-392 | a parsed scene meets what the replay assumes, and its rules are accepted by the watch exactly when counts, windows and durations make sense, which the parser does not look at |
| ManifestPrinting.ManifestRoundTrip | src/gw_manifest.c:258-393 | parsing the printout of a well-formed scene in milliseconds returns that scene |
| ManifestPrinting.LabelsReadBack | src/gw_manifest.c:234-251 | a sample's labels read back from their tokens |
| ManifestRules.IntegersRead | src/gw_manifest.c:47-58 | every decimal integer is read; beyond 64 bits it becomes the nearest value |
| ManifestRules.PlusReads | src/gw_manifest.c:47-58 | a plus sign is allowed, two signs are not |
| ManifestRules.IntegersRefused | src/gw_manifest.c:47-58 | a missing number, and a number with something behind it, are refused |
| ManifestRules.CountsRead | src/gw_manifest.c:60-67 | a count is between 0 and 4294967295 |
| ManifestRules.ValuesRead | src/gw_manifest.c:69-83 | exactly three words are values |
| ManifestRules.CommentsAreSkipped | src/gw_manifest.c:283-287 | empty lines and comments change nothing, wherever they are |
| ManifestRules.VersionFirst | src/gw_manifest.c:290-297 | the version is 1, and no other line may come before it |
| ManifestRules.UnknownKeyword | src/gw_manifest.c:357-359 | any other first word is refused |
| ManifestRules.Names | src/gw_manifest.c:298-307 | names of scene and camera have 1 to 31 characters |
| ManifestRules.Splits | src/gw_manifest.c:308-319 | the split is one of two words |
| ManifestRules.Ticks | src/gw_manifest.c:331-336 | a tick is positive, in milliseconds; without a line for it, it is 1000 of them |
| ManifestRules.FinishExactly | src/gw_manifest.c:365-392 | what a complete manifest must have said, and no rule's gap may be shorter than the tick |
| ManifestRules.Incomplete | src/gw_manifest.c:290-336 | a keyword without its value is refused |
| ManifestRules.IncompleteLines | src/gw_manifest.c:104-256 | a rule with fewer than six values, an event with fewer than three, a sample with fewer than two and a restart with none are refused |
| ManifestRules.Windows | src/gw_manifest.c:320-330 | both window defaults in milliseconds, the second one zero when it is missing, neither negative |
| ManifestRules.Truths | src/gw_manifest.c:160-202 | an event takes the window in force; refused as the 257th, with an empty window, out of order, or with a type without 1 to 31 characters |
| ManifestRules.TruthsOwn | src/gw_manifest.c:182-193 | an event's own window replaces the one in force |
| ManifestRules.TruthOfNobody | src/gw_manifest.c:167-171 | an event of an undeclared rule is refused |
| ManifestRules.Restarts | src/gw_manifest.c:341-354 | at most 8 restarts, in order, none negative |
| ManifestRules.RulesAppeared | src/gw_manifest.c:104-158 | an appeared rule is read as it is written, and refused with a duration |
| ManifestRules.RulesSustained | src/gw_manifest.c:144-150 | a sustained rule is read as it is written, and refused without a duration |
| ManifestRules.RulesRefused | src/gw_manifest.c:104-134 | a ninth rule, a taken or unfitting identifier, another kind, no target, or a count that does not fit: refused, whatever else the line says |
| ManifestRules.Samples | src/gw_manifest.c:204-256 | which samples are refused, for what and in what order: before the rules, as the 8193rd, out of time order, with an unfitting path, with labels that cannot be read |
| ManifestRules.LabelsGrow | src/gw_manifest.c:234-251 | one more label is accepted exactly if it names a declared rule that has none yet, and a value |
| ManifestRules.LabelsRefused | src/gw_manifest.c:235-238 | a token without an equals sign is no label |
| ManifestParser.Parser.Find | src/gw_manifest.c:94-102 | finds the first rule with the identifier |
| ManifestParser.Parser.ParseRule | src/gw_manifest.c:104-158 | appends the rule the tokens describe, or refuses and leaves the parser as it was |
| ManifestParser.Parser.ParseTruth | src/gw_manifest.c:160-202 | appends the event, with its own or the default match window, or refuses and leaves the parser as it was |
| ManifestParser.Parser.ParseLabels | src/gw_manifest.c:234-251 | reads the labels of a sample; no rule undeclared, none twice |
| ManifestParser.Parser.ParseSample | src/gw_manifest.c:204-256 | appends the sample with its labels, or refuses and leaves the parser as it was |
| ManifestParser.Parser.ParseRestart | src/gw_manifest.c:341-354 | appends the restart if it is in order and not negative |
| ManifestParser.Parser.ParseWindow | src/gw_manifest.c:320-330 | sets both defaults or neither |
| ManifestParser.Parser.ParseLine | src/gw_manifest.c:283-362 | does exactly what the line means, and nothing when it refuses |
| ManifestParser.Parser.Check | src/gw_manifest.c:365-392 | the final checks, and the default tick |
| ManifestParser.Parse | src/gw_manifest.c:258-393 | reads line after line and stops at the first refusal, with its status |

## Left out

- Null pointers and enum values out of range: the types exclude them, so the refusals of missing arguments are not modelled.
- Overflow of 64-bit times, such as the product of the gap and the offline factor in the query (`src/gw_state.c:316`) or milliseconds to nanoseconds in the manifest: integers are unbounded here.
- Machine arithmetic on doubles: `Wilson` and `Scoring` compute over the reals, with a square root given by the caller.
- The count after a refused tick is 0 here; the code leaves the caller's variable unwritten. The age of a rule that was never observed is `None` here, INT64_MAX in the code.
- Replaying a scene without samples, or with a tick that is not positive: the code would read past the samples or not terminate, so the replay requires both, and `Manifest.ParsedIsReplayable` shows that every parsed scene has them.
- How many detections a replay of a refused scene reports: the code leaves the count unwritten.
- The fixed-size arrays of a scene are sequences, and a sample's labels a map from rule index to value; the rule array of a watch is a sequence of objects. The scenes that `LongTicks` builds for confirmation counts above 2047 have more samples than the code's array holds.
- Splitting text into lines and lines into tokens: `Manifest` starts from tokens, so the limit on the length of a line and the blanks between tokens are not modelled. The printout is likewise a sequence of token lists; a name with a blank in it would not survive as text.
- Characters that `strtoll` skips before a number, other than the blanks and tabs that separate tokens.
- Trailing tokens are ignored on most lines, in the code and here; nothing is claimed about refusing them.
- What the partly filled scene holds after a manifest was refused.
- Error messages and line numbers.
- Text as bytes: `Json.Escape` works on characters; the code works on bytes and passes everything from 0x80 on unchanged.
- How `snprintf` prints: decimal and hexadecimal text is written out in `Json` and `Timestamp`.
- Sentence templates, word normalisation, durations in words and rule compilation (`src/gw_rules.c:177-728`): fixed word tables.
- The report and its thresholds (`src/gw_report.c`): line splitting and comparisons.
- The benchmark and report programs, the tools, the camera and the vision model: file and process handling, and foreign code.
