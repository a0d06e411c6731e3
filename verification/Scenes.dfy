/**
 Scenes, and the order of events in which a replay puts them to a watch
 (src/gw_bench.h, and the loop of `walk` in src/gw_score.c).

 Iteration `i` of the replay is at `NowAt(sc, i)`.  It first takes the restarts that
 have come due, then the samples that have come due, then ticks.
 */
module Scenes {
  import opened Machine
  import opened Options
  import opened Watching
  import H = History

  datatype Split = Dev | Test

  /** A sample answers for the rules it labels, and says nothing to the others. */
  datatype Sample = Sample(at: int, frame: string, labels: map<nat, Value>)

  datatype Truth = Truth(rule: nat, eventType: string, at: int, before: int, after: int)

  datatype Scene = Scene(
    name: string,
    camera: string,
    split: Split,
    rules: seq<Config>,
    samples: seq<Sample>,
    truth: seq<Truth>,
    tick: int,
    restarts: seq<int>)

  datatype Detection = Detection(rule: nat, at: int, matched: Option<nat>)

  /** What a replay needs in order to run at all. */
  predicate Replayable(sc: Scene) {
    sc.samples != [] && sc.tick > 0
  }

  predicate Ordered(sc: Scene) {
    forall i, j :: 0 <= i < j < |sc.samples| ==> sc.samples[i].at <= sc.samples[j].at
  }

  function Times(sc: Scene): seq<int> {
    seq(|sc.samples|, i requires 0 <= i < |sc.samples| => sc.samples[i].at)
  }

  /** How long `k` ticks take. */
  function Span(sc: Scene, k: int): int {
    k * sc.tick
  }

  function NowAt(sc: Scene, i: int): int
    requires sc.samples != []
  {
    sc.samples[0].at + Span(sc, i)
  }

  lemma SpanStep(sc: Scene, k: int)
    ensures Span(sc, 0) == 0 && Span(sc, k + 1) == Span(sc, k) + sc.tick
  {
  }

  /** The first index from `k` on whose time has not come by `now`. */
  function Skip(times: seq<int>, k: nat, now: int): (m: nat)
    requires k <= |times|
    ensures k <= m <= |times|
    ensures forall j :: k <= j < m ==> times[j] <= now
    ensures m < |times| ==> now < times[m]
    decreases |times| - k
  {
    if k < |times| && times[k] <= now then Skip(times, k + 1, now) else k
  }

  /** The first sample, and the first restart, that iteration `i` finds still to come. */
  function NextSample(sc: Scene, i: nat): (m: nat)
    requires sc.samples != []
    ensures m <= |sc.samples|
  {
    if i == 0 then 0 else Skip(Times(sc), NextSample(sc, i - 1), NowAt(sc, i - 1))
  }

  function NextRestart(sc: Scene, i: nat): (m: nat)
    requires sc.samples != []
    ensures m <= |sc.restarts|
  {
    if i == 0 then 0 else Skip(sc.restarts, NextRestart(sc, i - 1), NowAt(sc, i - 1))
  }

  /** The observation that sample `k` makes of a rule it labels. */
  function Answer(sc: Scene, k: nat, rule: nat): Observation
    requires k < |sc.samples| && rule in sc.samples[k].labels
  {
    Observation(k + 1, sc.samples[k].at, sc.samples[k].labels[rule])
  }

  /** Sample `k` put to the rules below `n`. */
  function SampleEvents(sc: Scene, k: nat, n: nat): seq<WatchEvent>
    requires k < |sc.samples|
  {
    if n == 0 then []
    else if n - 1 in sc.samples[k].labels then SampleEvents(sc, k, n - 1) + [ObsOf(n - 1, Answer(sc, k, n - 1))]
    else SampleEvents(sc, k, n - 1)
  }

  function SamplesEvents(sc: Scene, a: nat, b: nat): seq<WatchEvent>
    requires a <= b <= |sc.samples|
  {
    if a == b then [] else SamplesEvents(sc, a, b - 1) + SampleEvents(sc, b - 1, |sc.rules|)
  }

  function Restarts(n: nat): seq<WatchEvent> {
    if n == 0 then [] else Restarts(n - 1) + [RestartAll]
  }

  /** Everything a watch was told before the first `i` iterations were over.  It starts
      with the initialisation. */
  function Timeline(sc: Scene, i: nat): seq<WatchEvent>
    requires sc.samples != []
    decreases i, 0
  {
    if i == 0 then [RestartAll]
    else BeforeTick(sc, i - 1) + [TickAll(NowAt(sc, i - 1))]
  }

  function AfterRestarts(sc: Scene, i: nat): seq<WatchEvent>
    requires sc.samples != []
    decreases i, 1
  {
    Timeline(sc, i) + Restarts(NextRestart(sc, i + 1) - NextRestart(sc, i))
  }

  /** ... and before the tick of iteration `i`. */
  function BeforeTick(sc: Scene, i: nat): seq<WatchEvent>
    requires sc.samples != []
    decreases i, 2
  {
    AfterRestarts(sc, i) + SamplesEvents(sc, NextSample(sc, i), NextSample(sc, i + 1))
  }

  lemma TimelineStarts(sc: Scene)
    requires sc.samples != []
    ensures Timeline(sc, 0) == [RestartAll] && NextSample(sc, 0) == NextRestart(sc, 0) == 0
    ensures NowAt(sc, 0) == sc.samples[0].at
  {
  }

  lemma TimelineUnfolds(sc: Scene, i: nat)
    requires sc.samples != []
    ensures NextSample(sc, i + 1) == Skip(Times(sc), NextSample(sc, i), NowAt(sc, i))
    ensures NextRestart(sc, i + 1) == Skip(sc.restarts, NextRestart(sc, i), NowAt(sc, i))
    ensures AfterRestarts(sc, i) == Timeline(sc, i) + Restarts(NextRestart(sc, i + 1) - NextRestart(sc, i))
    ensures BeforeTick(sc, i) == AfterRestarts(sc, i) + SamplesEvents(sc, NextSample(sc, i), NextSample(sc, i + 1))
    ensures Timeline(sc, i + 1) == BeforeTick(sc, i) + [TickAll(NowAt(sc, i))]
    ensures NowAt(sc, i + 1) == NowAt(sc, i) + sc.tick
  {
    SpanStep(sc, i);
  }

  /** The replay is over after `n` iterations. */
  predicate DoneAt(sc: Scene, n: nat)
    requires sc.samples != []
  {
    n > 0 && NextSample(sc, n) == |sc.samples| && H.Last(sc.samples).at <= NowAt(sc, n - 1)
  }

  predicate FirstDone(sc: Scene, n: nat)
    requires sc.samples != []
  {
    DoneAt(sc, n) && forall m :: 0 <= m < n ==> !DoneAt(sc, m)
  }

  function Stamped(fired: seq<nat>, now: int): seq<Detection> {
    seq(|fired|, i requires 0 <= i < |fired| => Detection(fired[i], now, None))
  }

  /** The detections of the first `n` iterations. */
  function Detections(sc: Scene, n: nat): seq<Detection>
    requires sc.samples != []
  {
    if n == 0 then []
    else Detections(sc, n - 1) + Stamped(Fired(sc.rules, BeforeTick(sc, n - 1), NowAt(sc, n - 1)), NowAt(sc, n - 1))
  }

  /** Whether the rule holds a confirmed value right after the tick of iteration `i`. */
  predicate HeldAt(sc: Scene, rule: nat, i: nat)
    requires sc.samples != [] && rule < |sc.rules|
  {
    View(sc.rules[rule], RunOf(sc.rules[rule], Timeline(sc, i + 1), rule), NowAt(sc, i)).confirmed != Unknown
  }

  /** In how many of the first `n` iterations the rule held a confirmed value. */
  function HeldTicks(sc: Scene, rule: nat, n: nat): (h: nat)
    requires sc.samples != [] && rule < |sc.rules|
    ensures h <= n
  {
    if n == 0 then 0 else HeldTicks(sc, rule, n - 1) + if HeldAt(sc, rule, n - 1) then 1 else 0
  }

  /** The same where nothing, or a rule the scene does not have, may be asked about. */
  function Observed(sc: Scene, rule: Option<nat>, n: nat): nat
    requires sc.samples != []
  {
    if rule.Some? && rule.value < |sc.rules| then HeldTicks(sc, rule.value, n) else 0
  }

  function Unobserved(sc: Scene, rule: Option<nat>, n: nat): nat
    requires sc.samples != []
  {
    if rule.Some? && rule.value < |sc.rules| then n - HeldTicks(sc, rule.value, n) else 0
  }

  // ---------------------------------------------------------------- setting up

  /** What `gw_init` followed by adding the first `n` rules answers. */
  function SetupStatus(sc: Scene, n: nat): Status
    requires n <= |sc.rules|
  {
    if n == 0 then CopyIdStatus(sc.camera)
    else if SetupStatus(sc, n - 1) != Ok then SetupStatus(sc, n - 1)
    else AddStatus(n - 1, sc.rules[n - 1])
  }

  predicate Accepted(sc: Scene) {
    SetupStatus(sc, |sc.rules|) == Ok
  }

  /** A scene is accepted exactly when its camera and every one of its rules are usable. */
  lemma {:induction false} AcceptedExactly(sc: Scene, n: nat)
    requires n <= |sc.rules|
    ensures SetupStatus(sc, n) == Ok <==>
            && IdFits(sc.camera) && n <= MAX_RULES
            && forall i :: 0 <= i < n ==> Usable(sc.rules[i]) && IdFits(sc.rules[i].id)
  {
    if n > 0 {
      AcceptedExactly(sc, n - 1);
    }
  }
}
