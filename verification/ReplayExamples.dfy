/**
 Scenes that a manifest can describe, at the limits of what a replay guarantees.
 */
module ReplayExamples {
  import opened Machine
  import opened LosingSight
  import opened Options
  import opened Reporting
  import opened Scenes
  import opened ReplayRuns
  import opened ReplayResults
  import opened ReplayLimits
  import opened LongTicks
  import Manifest
  import opened ManifestPrinting
  import opened Matching
  import opened Watching
  import H = History
  import Appeared

  const MS: int := Manifest.NS_PER_MS

  /** Ten milliseconds, the tick of the examples and the gap of their rule. */
  const TEN: int := 10 * MS

  function Package(): Config {
    Config("package", Kind.Appeared, Yes, 1, 0, TEN, 0)
  }

  function Frame(ms: int, v: Value): Sample {
    Sample(ms * MS, "", map[0 := v])
  }

  /** Two events in time order whose match windows begin in the opposite order. */
  function TwoEvents(): seq<Truth> {
    [Truth(0, "delivered", 20 * MS, 0, 10 * MS), Truth(0, "delivered", 21 * MS, 11 * MS, 10 * MS)]
  }

  /** Two answers, the second `ms` milliseconds after the first. */
  function TwoFrames(v: Value, ms: nat): (sc: Scene)
    ensures sc.samples != [] && sc.rules == [Package()] && sc.truth == TwoEvents() && sc.tick == TEN
  {
    Scene("example", "camera", Test, [Package()], [Frame(0, v), Frame(ms, Yes)], TwoEvents(), TEN, [])
  }

  lemma TwoFramesRun(v: Value, ms: nat)
    requires ms <= 1000
    ensures var sc := TwoFrames(v, ms);
            Plain(sc) && Accepted(sc) && Printable(sc)
    ensures forall i: nat :: NowAt(TwoFrames(v, ms), i) == i * TEN
  {
    AcceptedExactly(TwoFrames(v, ms), 1);
    TwoFramesPrintable(v, ms);
    hide Printable, Usable;
  }

  lemma TwoFramesPrintable(v: Value, ms: nat)
    requires ms <= 1000
    ensures Printable(TwoFrames(v, ms))
  {
    assert forall n: nat :: n <= 1000 ==> WholeMs(n * MS);
    assert WholeMs(0 * MS) && WholeMs(ms * MS) && WholeMs(20 * MS) && WholeMs(21 * MS) && WholeMs(11 * MS);
    hide WholeMs;
  }

  lemma {:induction false} SkipIs(times: seq<int>, k: nat, now: int, m: nat)
    requires k <= m <= |times| && (forall j :: k <= j < m ==> times[j] <= now)
    requires m < |times| ==> now < times[m]
    ensures Skip(times, k, now) == m
    decreases m - k
  {
    if k < m {
      SkipIs(times, k + 1, now, m);
    }
  }

  /** How many samples an iteration finds delivered when it is over. */
  lemma Delivers(sc: Scene, i: nat, b: nat)
    requires Plain(sc) && b <= |sc.samples| && NextSample(sc, i) <= b
    requires b > 0 ==> sc.samples[b - 1].at <= NowAt(sc, i)
    requires b < |sc.samples| ==> NowAt(sc, i) < sc.samples[b].at
    ensures NextSample(sc, i + 1) == b
  {
    hide NextRestart, NowAt, NextSample, Skip;
    TimelineUnfolds(sc, i);
    forall j | 0 <= j < b ensures Times(sc)[j] <= NowAt(sc, i) {
      assert j == b - 1 || sc.samples[j].at <= sc.samples[b - 1].at;
    }
    SkipIs(Times(sc), NextSample(sc, i), NowAt(sc, i), b);
  }

  /** The run over one more iteration, which delivers the samples up to `b`. */
  lemma LineGrows(sc: Scene, i: nat, b: nat)
    requires Plain(sc) && b <= |sc.samples| && NextSample(sc, i) <= b
    requires b > 0 ==> sc.samples[b - 1].at <= NowAt(sc, i)
    requires b < |sc.samples| ==> NowAt(sc, i) < sc.samples[b].at
    ensures NextSample(sc, i + 1) == b
    ensures RuleLine(sc, 0, i + 1) ==
            RuleLine(sc, 0, i) + Answers(sc, 0, NextSample(sc, i), b) + [H.TickAt(NowAt(sc, i))]
  {
    Delivers(sc, i, b);
    PlainLine(sc, i);
  }

  lemma AnswersOfTwo(v: Value, ms: nat)
    requires ms <= 1000
    ensures var sc := TwoFrames(v, ms);
            && |sc.samples| == 2 && sc.samples[0].at == 0 && sc.samples[1].at == ms * MS
            && Answers(sc, 0, 0, 1) == [H.Obs(Observation(1, 0, v))]
            && Answers(sc, 0, 1, 1) == []
            && Answers(sc, 0, 1, 2) == [H.Obs(Observation(2, ms * MS, Yes))]
            && RuleLine(sc, 0, 0) == [H.Restart] && NextSample(sc, 0) == 0
            && Plain(sc) && NowAt(sc, 0) == 0 && NowAt(sc, 1) == TEN && NowAt(sc, 2) == 2 * TEN
  {
    TwoFramesRun(v, ms);
    var sc := TwoFrames(v, ms);
    assert Answers(sc, 0, 0, 0) == [] && Answers(sc, 0, 1, 1) == [];
  }

  // ---------------------------------------------------------------- a gap

  function GapLine(): seq<H.Event> {
    [H.Restart, H.Obs(Observation(1, 0, Yes)), H.TickAt(0), H.TickAt(TEN),
     H.Obs(Observation(2, 2 * TEN, Yes)), H.TickAt(2 * TEN)]
  }

  /** Two observations can be as far apart as `max_gap` plus one tick, which is more than
      `max_gap`, without anything having been noticed. */
  lemma GapUnnoticed() returns (sc: Scene, n: nat)
    ensures sc == TwoFrames(Yes, 20) && Printable(sc) && Accepted(sc) && RuleLine(sc, 0, n) == GapLine()
    ensures GapLine()[4].o.at - GapLine()[1].o.at == Package().maxGap + sc.tick
    ensures forall j :: 1 < j < 4 ==> !H.BlindsAt(Package(), GapLine(), j)
  {
    hide TwoFrames, RuleLine, NextSample, NowAt, Answers, Printable, Accepted, Plain, H.BlindsAt;
    sc := TwoFrames(Yes, 20);
    TwoFramesRun(Yes, 20);
    n := GapLineIs(sc);
    NoTickBetween(sc);
    GapInSight(sc, n, GapLine());
  }

  lemma GapInSight(sc: Scene, n: nat, tr: seq<H.Event>)
    requires Plain(sc) && sc.rules == [Package()] && tr == GapLine() == RuleLine(sc, 0, n)
    requires !TickWithin(sc, TEN, 2 * TEN)
    ensures forall j :: 1 < j < 4 ==> !H.BlindsAt(Package(), tr, j)
  {
    hide RuleLine, NextSample, NowAt, Answers, H.BlindsAt, TickWithin;
    LineEnds(sc, 0, 0);
    GapNoticedExactly(sc, 0, n, tr, 1, 4);
  }

  lemma GapLineIs(sc: Scene) returns (n: nat)
    requires sc == TwoFrames(Yes, 20)
    ensures RuleLine(sc, 0, n) == GapLine()
  {
    hide TwoFrames, RuleLine, NextSample, NowAt, Answers, Plain;
    AnswersOfTwo(Yes, 20);
    LineGrows(sc, 0, 1);
    LineGrows(sc, 1, 1);
    LineGrows(sc, 2, 2);
    n := 3;
  }

  lemma NoTickBetween(sc: Scene)
    requires sc.samples != [] && forall i: nat :: NowAt(sc, i) == i * TEN
    ensures !TickWithin(sc, TEN, 2 * TEN)
  {
    forall i: nat ensures !(TEN < NowAt(sc, i) < 2 * TEN) {
      assert NowAt(sc, i) == i * TEN;
    }
  }

  // ---------------------------------------------------------------- a detection's time

  function LateLine(n: nat): seq<H.Event>
    requires n <= 5
  {
    [H.Restart, H.Obs(Observation(1, 0, No)), H.TickAt(0), H.Obs(Observation(2, 5 * MS, Yes)), H.TickAt(TEN)][..n]
  }

  /** Up to the first tick: the rule is armed and has latched nothing. */
  lemma ArmedLine() returns (s: Runtime)
    ensures Latches(Package(), LateLine(1)) == 0 && Leads(Package(), LateLine(3), s, 0, 0)
    ensures s.reaction.armed && s.confirmed == s.candidate.value == No && s.seen == Some(Stamp(1, 0))
  {
    var cfg := Package();
    assert Leads(cfg, [], ZERO, 0, 0);
    hide H.Run, Latches, ReportCount;
    LeadsOn(cfg, [], ZERO, 0, 0, H.Restart);
    assert [] + [H.Restart] == LateLine(1);
    LeadsOn(cfg, LateLine(1), ZERO, 0, 0, LateLine(5)[1]);
    assert LateLine(1) + [LateLine(5)[1]] == LateLine(2);
    var s1 := H.Step(cfg, ZERO, LateLine(5)[1]);
    LeadsOn(cfg, LateLine(2), s1, 0, 0, LateLine(5)[2]);
    assert LateLine(2) + [LateLine(5)[2]] == LateLine(3);
    s := H.Step(cfg, s1, LateLine(5)[2]);
  }

  lemma LateLineLeads()
    ensures Latches(Package(), LateLine(1)) == Latches(Package(), LateLine(3)) == 0
    ensures Latches(Package(), LateLine(5)) == 1 && Appeared.LatchesAt(Package(), LateLine(5), 3)
  {
    hide H.Run, Latches, ReportCount;
    var cfg := Package();
    var s2 := ArmedLine();
    LeadsOn(cfg, LateLine(3), s2, 0, 0, LateLine(5)[3]);
    assert LateLine(3) + [LateLine(5)[3]] == LateLine(4);
    var s3 := H.Step(cfg, s2, LateLine(5)[3]);
    LeadsOn(cfg, LateLine(4), s3, 1, 0, LateLine(5)[4]);
    assert LateLine(4) + [LateLine(5)[4]] == LateLine(5);
    assert LateLine(5)[..3] == LateLine(3) && LateLine(5)[..4] == LateLine(4);
  }

  /** A detection's time need not be the time of the observation that completed it. */
  lemma DetectionComesLater() returns (sc: Scene, n: nat)
    ensures sc == TwoFrames(No, 5) && Printable(sc) && Accepted(sc)
    ensures FirstDone(sc, n) && TimesOf(Detections(sc, n), 0) == [TEN]
    ensures RuleLine(sc, 0, n) == LateLine(5)
    ensures Appeared.LatchesAt(Package(), LateLine(5), 3) && LateLine(5)[3].o.at == 5 * MS
  {
    hide TwoFrames, RuleLine, NextSample, NowAt, Answers, Printable, Accepted, Plain, Latches, FirstDone;
    sc := TwoFrames(No, 5);
    TwoFramesRun(No, 5);
    LateLineLeads();
    n := LateLineIs(sc);
    DetectionsOfRule(sc, 0, n);
  }

  lemma LateLineIs(sc: Scene) returns (n: nat)
    requires sc == TwoFrames(No, 5)
    ensures FirstDone(sc, n) && RuleLine(sc, 0, n) == LateLine(5) && ReportTimes(sc, 0, n) == [TEN]
  {
    hide TwoFrames, RuleLine, NextSample, NowAt, Answers, Plain, Latches, ReportedAt, Appeared.LatchesAt;
    AnswersOfTwo(No, 5);
    LateLineLeads();
    LineGrows(sc, 0, 1);
    LineGrows(sc, 1, 2);
    assert RuleLine(sc, 0, 0) == LateLine(1);
    assert RuleLine(sc, 0, 1) == LateLine(3);
    assert RuleLine(sc, 0, 2) == LateLine(5);
    IterationReports(sc, 0, 0);
    IterationReports(sc, 0, 1);
    assert ReportTimes(sc, 0, 0) == [];
    n := 2;
  }

  // ---------------------------------------------------------------- two appearances, one detection

  /** A sum or a difference of whole milliseconds, within what 64 bits can hold. */
  lemma WholeSum(a: int, b: int)
    requires a % MS == 0 && b % MS == 0
    ensures (a + b) % MS == 0 && (a - b) % MS == 0
  {
    var i, j := a / MS, b / MS;
    assert a + b == MS * (i + j) && a - b == MS * (i - j);
  }

  lemma TimesAreWhole(cfg: Config, tick: int, k: nat)
    requires LongTick(cfg, tick) && WholeMs(cfg.confirmWindow) && WholeMs(tick) && WholeMs(2 * tick)
    ensures WholeMs(TimeOf(cfg, tick, k))
  {
    var w := cfg.confirmWindow;
    WholeSum(tick, tick);
    WholeSum(2 * tick, w);
    WholeSum(2 * tick - w, w);
    WholeSum(2 * tick - 2 * w, w);
    assert 0 <= TimeOf(cfg, tick, k) <= 2 * tick;
  }

  lemma BurstIsWellFormed(cfg: Config, tick: int)
    requires LongTick(cfg, tick) && 4 * cfg.confirmCount + 4 <= Manifest.MAX_SAMPLES
    ensures Manifest.WellFormed(Burst(cfg, tick))
  {
    BurstRuns(cfg, tick);
    hide TimeOf, NowAt, Accepted;
  }

  /** The scene in which two appearances share a detection is one that a manifest can describe
      if the window, the gap and the tick are whole milliseconds, and the answers not too many. */
  lemma BurstIsPrintable(cfg: Config, tick: int)
    requires LongTick(cfg, tick) && PrintableRule(cfg) && WholeMs(tick) && WholeMs(2 * tick)
    requires 4 * cfg.confirmCount + 4 <= Manifest.MAX_SAMPLES
    ensures Printable(Burst(cfg, tick))
  {
    BurstIsWellFormed(cfg, tick);
    hide WholeMs, TimeOf, Manifest.WellFormed, PrintableRule, LongTick;
    forall k: nat ensures WholeMs(TimeOf(cfg, tick, k)) {
      TimesAreWhole(cfg, tick, k);
    }
  }

  // ---------------------------------------------------------------- an event that is missed

  /** In a scene with one rule the detections are known by their times. */
  lemma {:induction false} KnownByTimes(ds: seq<Detection>)
    requires forall i :: 0 <= i < |ds| ==> ds[i].rule == 0 && ds[i].matched == None
    ensures |TimesOf(ds, 0)| == |ds|
    ensures forall i :: 0 <= i < |ds| ==> ds[i] == Detection(0, TimesOf(ds, 0)[i], None)
  {
    if ds != [] {
      KnownByTimes(H.Pre(ds));
    }
  }

  lemma {:induction false} OfTheOnlyRule(sc: Scene, n: nat)
    requires sc.samples != [] && |sc.rules| == 1
    ensures forall i :: 0 <= i < |Detections(sc, n)| ==>
      Detections(sc, n)[i].rule == 0 && Detections(sc, n)[i].matched == None
  {
    hide NowAt, BeforeTick, Fired;
    if n > 0 {
      OfTheOnlyRule(sc, n - 1);
      var f := Fired(sc.rules, BeforeTick(sc, n - 1), NowAt(sc, n - 1));
      FiredExactly(sc.rules, BeforeTick(sc, n - 1), NowAt(sc, n - 1));
      assert forall i :: 0 <= i < |f| ==> f[i] in f;
    }
  }

  /** A scene that comes out of the manifest parser, with events in time order, whose one
      detection is scored as false although it could have answered an event. */
  lemma EarlyExitMissesAnEvent() returns (sc: Scene, n: nat)
    ensures Printable(sc) && Manifest.ParseScene(Print(sc)).Parsed? && Manifest.ParseScene(Print(sc)).st.scene == sc
    ensures Accepted(sc) && FirstDone(sc, n) && Detections(sc, n) == [Detection(0, TEN, None)]
    ensures |Greedy(sc.truth, Detections(sc, n), 0, 1)| == 0
    ensures Assignment(sc.truth, Detections(sc, n), 0, 0, {}, map[0 := 1])
  {
    hide TwoFrames, Printable, Accepted, RuleLine, Latches, FirstDone, Print, Manifest.ParseScene, Detections;
    sc, n := DetectionComesLater();
    ManifestRoundTrip(sc);
    OfTheOnlyRule(sc, n);
    KnownByTimes(Detections(sc, n));
    hide Greedy, Assignment;
    MissesTheEvent(sc.truth, Detections(sc, n));
  }
}
