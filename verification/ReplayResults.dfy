/**
 What a replay guarantees about its detections and its time accounting
 (`walk` and `gw_replay` in src/gw_score.c).  `Replay.Walk` is proved to compute
 `Detections` and `HeldTicks`; the lemmas here are about those.
 */
module ReplayResults {
  import opened Machine
  import opened Watching
  import opened Scenes
  import opened ReplayRuns
  import H = History
  import Appeared
  import Sustained
  import Rates
  import LosingSight

  // ---------------------------------------------------------------- totality and time

  /** In a scene whose samples are in time order, no observation is ever refused. */
  lemma NothingRefused(sc: Scene, rule: nat, i: nat, k: nat)
    requires Replayable(sc) && Ordered(sc) && rule < |sc.rules|
    requires k < |RuleLine(sc, rule, i + 1)| && RuleLine(sc, rule, i + 1)[k].Obs?
    ensures H.AcceptsAt(RuleLine(sc, rule, i + 1), k)
  {
    var tr, cfg := RuleLine(sc, rule, i + 1), sc.rules[rule];
    RuleLinePaced(sc, rule, i);
    hide RuleLine;
    var p := tr[..k + 1];
    assert H.Pre(p) == tr[..k] && LosingSight.Fresh(p);
    LosingSight.FreshAccepts(cfg, p);
    H.LastStep(cfg, p);
    assert p[..k] == tr[..k];
  }

  /** No appearance is left pending when an iteration begins, so no restart drops one. */
  lemma NothingPending(sc: Scene, rule: nat, i: nat)
    requires sc.samples != [] && rule < |sc.rules|
    ensures !RunOf(sc.rules[rule], Timeline(sc, i), rule).reaction.pending
  {
    if i > 0 {
      RunOfAppends(sc.rules[rule], BeforeTick(sc, i - 1), TickAll(NowAt(sc, i - 1)), rule);
    } else {
      RunOfAppends(sc.rules[rule], [], RestartAll, rule);
      assert [] + [RestartAll] == Timeline(sc, 0);
    }
  }

  /** In a scene whose samples are in time order, a replay is over once the last one is due. */
  lemma DoneWhenLastDue(sc: Scene, n: nat)
    requires Replayable(sc) && Ordered(sc) && n > 0
    ensures DoneAt(sc, n) <==> H.Last(sc.samples).at <= NowAt(sc, n - 1)
  {
    hide Skip, NextSample, NextRestart, NowAt, Timeline, AfterRestarts, BeforeTick, Restarts, SamplesEvents;
    TimelineUnfolds(sc, n - 1);
    var m := NextSample(sc, n);
    if m < |sc.samples| {
      assert NowAt(sc, n - 1) < Times(sc)[m];
      assert m == |sc.samples| - 1 || sc.samples[m].at <= H.Last(sc.samples).at;
    }
  }

  /** All of the scene's time is accounted for: observed and unknown time add up to a
      whole number of ticks, the fewest that reach from the first sample to the last. */
  lemma AccountsForAllTime(sc: Scene, rule: nat, n: nat)
    requires Replayable(sc) && Ordered(sc) && rule < |sc.rules| && FirstDone(sc, n)
    ensures var accounted := Span(sc, HeldTicks(sc, rule, n - 1)) + Span(sc, n - 1 - HeldTicks(sc, rule, n - 1));
            var total := H.Last(sc.samples).at - sc.samples[0].at;
            && accounted == sc.tick * (n - 1)
            && total <= accounted
            && (n > 1 ==> accounted - sc.tick < total)
  {
    hide NextSample, NextRestart, Skip, HeldAt, Timeline;
    DoneWhenLastDue(sc, n);
    if n > 1 {
      assert !DoneAt(sc, n - 1);
      DoneWhenLastDue(sc, n - 1);
      SpanStep(sc, n - 2);
    }
    SpanAdds(sc, HeldTicks(sc, rule, n - 1), n - 1);
  }

  lemma SpanAdds(sc: Scene, h: int, n: int)
    ensures Span(sc, h) + Span(sc, n - h) == Span(sc, n) == sc.tick * n
  {
  }

  /** In time order, and none later than `now`. */
  predicate InOrder(ds: seq<Detection>, now: int) {
    && (forall i :: 0 <= i < |ds| ==> ds[i].at <= now)
    && (forall i, j :: 0 <= i < j < |ds| ==> ds[i].at <= ds[j].at)
  }

  lemma InOrderExtends(ds: seq<Detection>, fired: seq<nat>, before: int, now: int)
    requires InOrder(ds, before) && before <= now
    ensures InOrder(ds + Stamped(fired, now), now)
  {
  }

  /** Detections come in time order, none after the last tick. */
  lemma {:induction false} DetectionTimes(sc: Scene, n: nat)
    requires Replayable(sc)
    ensures InOrder(Detections(sc, n), NowAt(sc, n - 1))
  {
    hide NowAt, Fired, BeforeTick, Stamped;
    if n > 0 {
      hide InOrder;
      DetectionTimes(sc, n - 1);
      EarlierTick(sc, n - 1);
      var now := NowAt(sc, n - 1);
      InOrderExtends(Detections(sc, n - 1), Fired(sc.rules, BeforeTick(sc, n - 1), now), NowAt(sc, n - 2), now);
    }
  }

  lemma EarlierTick(sc: Scene, i: int)
    requires Replayable(sc)
    ensures NowAt(sc, i - 1) <= NowAt(sc, i)
  {
    SpanStep(sc, i - 1);
  }

  // ---------------------------------------------------------------- one rule's detections

  /** The times of the detections of one rule. */
  function TimesOf(ds: seq<Detection>, rule: nat): seq<int> {
    if ds == [] then []
    else if H.Last(ds).rule == rule then TimesOf(H.Pre(ds), rule) + [H.Last(ds).at]
    else TimesOf(H.Pre(ds), rule)
  }

  /** The tick of iteration `i` reports the rule, by the rule's own run. */
  predicate ReportedAt(sc: Scene, rule: nat, i: nat)
    requires sc.samples != [] && rule < |sc.rules|
  {
    Reports(sc.rules[rule], H.Run(sc.rules[rule], RuleBeforeTick(sc, rule, i)), NowAt(sc, i))
  }

  function ReportTimes(sc: Scene, rule: nat, n: nat): seq<int>
    requires sc.samples != [] && rule < |sc.rules|
  {
    if n == 0 then []
    else if ReportedAt(sc, rule, n - 1) then ReportTimes(sc, rule, n - 1) + [NowAt(sc, n - 1)]
    else ReportTimes(sc, rule, n - 1)
  }

  lemma {:induction false} TimesOfConcat(a: seq<Detection>, b: seq<Detection>, rule: nat)
    ensures TimesOf(a + b, rule) == TimesOf(a, rule) + TimesOf(b, rule)
  {
    if b == [] {
      assert a + b == a;
    } else {
      assert H.Pre(a + b) == a + H.Pre(b);
      TimesOfConcat(a, H.Pre(b), rule);
    }
  }

  lemma {:induction false} TimesOfStamped(f: seq<nat>, now: int, rule: nat)
    requires forall i, j :: 0 <= i < j < |f| ==> f[i] < f[j]
    ensures TimesOf(Stamped(f, now), rule) == if rule in f then [now] else []
  {
    if f != [] {
      assert H.Pre(Stamped(f, now)) == Stamped(H.Pre(f), now);
      assert f == H.Pre(f) + [H.Last(f)];
      TimesOfStamped(H.Pre(f), now, rule);
    }
  }

  /** The tick of an iteration fires the rules whose own runs say so, each once. */
  lemma FiredIsReported(sc: Scene, rule: nat, i: nat)
    requires sc.samples != [] && rule < |sc.rules|
    ensures var f := Fired(sc.rules, BeforeTick(sc, i), NowAt(sc, i));
            (rule in f <==> ReportedAt(sc, rule, i)) && forall a, b :: 0 <= a < b < |f| ==> f[a] < f[b]
  {
    hide Fired, BeforeTick, RuleBeforeTick, NowAt, H.Run, Reports;
    ProjectTimeline(sc, rule, i);
    FiredExactly(sc.rules, BeforeTick(sc, i), NowAt(sc, i));
  }

  /** Of all detections, those of one rule are the reports of the rule's own run. */
  lemma {:induction false} DetectionsOfRule(sc: Scene, rule: nat, n: nat)
    requires sc.samples != [] && rule < |sc.rules|
    ensures TimesOf(Detections(sc, n), rule) == ReportTimes(sc, rule, n)
  {
    hide Fired, BeforeTick, ReportedAt, NowAt, Stamped;
    if n > 0 {
      DetectionsOfRule(sc, rule, n - 1);
      var now := NowAt(sc, n - 1);
      var fired := Fired(sc.rules, BeforeTick(sc, n - 1), now);
      FiredIsReported(sc, rule, n - 1);
      TimesOfStamped(fired, now, rule);
      TimesOfConcat(Detections(sc, n - 1), Stamped(fired, now), rule);
    }
  }

  /** The scene with one rule only, and the samples' answers for that rule. */
  function Only(sc: Scene, rule: nat): (only: Scene)
    requires rule < |sc.rules|
    ensures only.rules == [sc.rules[rule]] && |only.samples| == |sc.samples|
  {
    sc.(rules := [sc.rules[rule]],
        samples := seq(|sc.samples|, k requires 0 <= k < |sc.samples| => Narrow(sc.samples[k], rule)))
  }

  function Narrow(smp: Sample, rule: nat): Sample {
    smp.(labels := if rule in smp.labels then map[0 := smp.labels[rule]] else map[])
  }

  lemma OnlyTimes(sc: Scene, rule: nat)
    requires sc.samples != [] && rule < |sc.rules|
    ensures Times(Only(sc, rule)) == Times(sc) && Only(sc, rule).restarts == sc.restarts
    ensures forall i :: NowAt(Only(sc, rule), i) == NowAt(sc, i)
  {
  }

  lemma {:induction false} OnlyCursors(sc: Scene, rule: nat, i: nat)
    requires sc.samples != [] && rule < |sc.rules|
    ensures NextSample(Only(sc, rule), i) == NextSample(sc, i)
    ensures NextRestart(Only(sc, rule), i) == NextRestart(sc, i)
    ensures NowAt(Only(sc, rule), i) == NowAt(sc, i)
  {
    hide Only, Times, NowAt, Skip;
    OnlyTimes(sc, rule);
    if i > 0 {
      OnlyCursors(sc, rule, i - 1);
    }
  }

  lemma {:induction false} OnlyAnswers(sc: Scene, rule: nat, a: nat, b: nat)
    requires a <= b <= |sc.samples| && rule < |sc.rules|
    ensures Answers(Only(sc, rule), 0, a, b) == Answers(sc, rule, a, b)
  {
    if a < b {
      OnlyAnswers(sc, rule, a, b - 1);
    }
  }

  lemma OnlyBeforeTick(sc: Scene, rule: nat, i: nat)
    requires sc.samples != [] && rule < |sc.rules| && RuleLine(Only(sc, rule), 0, i) == RuleLine(sc, rule, i)
    ensures RuleBeforeTick(Only(sc, rule), 0, i) == RuleBeforeTick(sc, rule, i)
  {
    hide Only, NextSample, NextRestart, NowAt, Answers, Reboots, RuleLine;
    OnlyCursors(sc, rule, i);
    OnlyCursors(sc, rule, i + 1);
    TimelineUnfolds(sc, i);
    OnlyAnswers(sc, rule, NextSample(sc, i), NextSample(sc, i + 1));
  }

  lemma {:induction false} OnlyLine(sc: Scene, rule: nat, i: nat)
    requires sc.samples != [] && rule < |sc.rules|
    ensures RuleLine(Only(sc, rule), 0, i) == RuleLine(sc, rule, i)
    ensures RuleBeforeTick(Only(sc, rule), 0, i) == RuleBeforeTick(sc, rule, i)
  {
    hide Only, NowAt, RuleBeforeTick;
    if i > 0 {
      OnlyLine(sc, rule, i - 1);
      OnlyCursors(sc, rule, i - 1);
    }
    OnlyBeforeTick(sc, rule, i);
  }

  lemma {:induction false} OnlyReports(sc: Scene, rule: nat, n: nat)
    requires sc.samples != [] && rule < |sc.rules|
    ensures ReportTimes(Only(sc, rule), 0, n) == ReportTimes(sc, rule, n)
  {
    hide RuleBeforeTick, NowAt, H.Run, Reports;
    if n > 0 {
      OnlyReports(sc, rule, n - 1);
      OnlyLine(sc, rule, n - 1);
      OnlyCursors(sc, rule, n - 1);
    }
  }

  /** Holding a confirmed value is a matter of the rule's own run. */
  lemma HeldInLine(sc: Scene, rule: nat, i: nat)
    requires sc.samples != [] && rule < |sc.rules|
    ensures HeldAt(sc, rule, i) <==>
            View(sc.rules[rule], H.Run(sc.rules[rule], RuleLine(sc, rule, i + 1)), NowAt(sc, i)).confirmed != Unknown
  {
    hide View, H.Run, RuleLine, NowAt, Timeline;
    ProjectTimeline(sc, rule, i + 1);
  }

  /** Of the first `n` iterations, those whose tick left the rule with a confirmed value: what its
      run up to then gives evidence for is not `unknown`. */
  ghost function ConfirmedTicks(sc: Scene, rule: nat, n: nat): set<nat>
    requires sc.samples != [] && rule < |sc.rules|
  {
    set i: nat | i < n && KnownAfter(sc, rule, i)
  }

  predicate KnownAfter(sc: Scene, rule: nat, i: nat)
    requires sc.samples != [] && rule < |sc.rules|
  {
    H.ConfirmedBy(sc.rules[rule], H.Evidence(sc.rules[rule], RuleLine(sc, rule, i + 1))) != Unknown
  }

  lemma HeldIsKnown(sc: Scene, rule: nat, i: nat)
    requires sc.samples != [] && rule < |sc.rules|
    ensures HeldAt(sc, rule, i) <==> KnownAfter(sc, rule, i)
  {
    var cfg, tr := sc.rules[rule], RuleLine(sc, rule, i + 1);
    HeldInLine(sc, rule, i);
    LineEnds(sc, rule, i + 1);
    hide RuleLine, NowAt, HeldAt;
    H.HistoryRefinement(cfg, tr);
    TickedView(cfg, H.Pre(tr), NowAt(sc, i));
    assert H.Pre(tr) + [H.Last(tr)] == tr;
  }

  /** Right after a tick, a query at that time reports what the rule holds. */
  lemma TickedView(cfg: Config, tr: seq<H.Event>, now: int)
    ensures var s := H.Run(cfg, tr + [H.TickAt(now)]);
            View(cfg, s, now).confirmed == s.confirmed
  {
    RunAppends(cfg, tr, H.TickAt(now));
  }

  /** The ticks accounted as observed are those after which the evidence confirms a value. */
  lemma {:induction false} HeldTicksCount(sc: Scene, rule: nat, n: nat)
    requires sc.samples != [] && rule < |sc.rules|
    ensures HeldTicks(sc, rule, n) == |ConfirmedTicks(sc, rule, n)|
  {
    hide HeldAt, KnownAfter;
    if n > 0 {
      HeldTicksCount(sc, rule, n - 1);
      HeldIsKnown(sc, rule, n - 1);
      var before := ConfirmedTicks(sc, rule, n - 1);
      assert ConfirmedTicks(sc, rule, n) == if KnownAfter(sc, rule, n - 1) then before + {n - 1} else before;
    } else {
      assert ConfirmedTicks(sc, rule, 0) == {};
    }
  }

  lemma OnlyHeldAt(sc: Scene, rule: nat, i: nat)
    requires sc.samples != [] && rule < |sc.rules|
    ensures HeldAt(Only(sc, rule), 0, i) == HeldAt(sc, rule, i)
  {
    hide RuleLine, NowAt, H.Run, View, HeldAt, Only;
    OnlyLine(sc, rule, i + 1);
    OnlyCursors(sc, rule, i);
    HeldInLine(sc, rule, i);
    HeldInLine(Only(sc, rule), 0, i);
  }

  lemma {:induction false} OnlyHeld(sc: Scene, rule: nat, n: nat)
    requires sc.samples != [] && rule < |sc.rules|
    ensures HeldTicks(Only(sc, rule), 0, n) == HeldTicks(sc, rule, n)
  {
    hide HeldAt, Only;
    if n > 0 {
      OnlyHeld(sc, rule, n - 1);
      OnlyHeldAt(sc, rule, n - 1);
    }
  }

  lemma OnlyDone(sc: Scene, rule: nat, n: nat)
    requires sc.samples != [] && rule < |sc.rules|
    ensures DoneAt(Only(sc, rule), n) == DoneAt(sc, n)
  {
    hide NextSample, NowAt, NextRestart;
    OnlyCursors(sc, rule, n);
    if n > 0 {
      OnlyCursors(sc, rule, n - 1);
    }
  }

  lemma OnlyAccepted(sc: Scene, rule: nat)
    requires rule < |sc.rules|
    ensures Accepted(sc) ==> Accepted(Only(sc, rule))
  {
    AcceptedExactly(sc, |sc.rules|);
    AcceptedExactly(Only(sc, rule), 1);
  }

  /** Rules do not interfere: replaying a scene and keeping one rule's detections and
      availability is replaying the scene with only that rule. */
  lemma RulesDoNotInterfere(sc: Scene, rule: nat, n: nat)
    requires Replayable(sc) && rule < |sc.rules|
    ensures FirstDone(Only(sc, rule), n) <==> FirstDone(sc, n)
    ensures TimesOf(Detections(Only(sc, rule), n), 0) == TimesOf(Detections(sc, n), rule)
    ensures HeldTicks(Only(sc, rule), 0, n) == HeldTicks(sc, rule, n)
    ensures Accepted(sc) ==> Accepted(Only(sc, rule))
  {
    OnlyAccepted(sc, rule);
    hide Accepted;
    hide DoneAt, Only, TimesOf, Detections, HeldTicks, ReportTimes;
    DetectionsOfRule(sc, rule, n);
    OnlyReports(sc, rule, n);
    OnlyHeld(sc, rule, n);
    forall m: nat ensures DoneAt(Only(sc, rule), m) == DoneAt(sc, m) {
      OnlyDone(sc, rule, m);
    }
    OnlyDetections(sc, rule, n);
  }

  lemma OnlyDetections(sc: Scene, rule: nat, n: nat)
    requires sc.samples != [] && rule < |sc.rules|
    ensures TimesOf(Detections(Only(sc, rule), n), 0) == ReportTimes(Only(sc, rule), 0, n)
  {
    DetectionsOfRule(Only(sc, rule), 0, n);
  }

  // ---------------------------------------------------------------- soundness of detections

  /** A reported iteration is a reporting tick of the rule's own run. */
  lemma ReportedStep(sc: Scene, rule: nat, i: nat)
    requires Replayable(sc) && rule < |sc.rules|
    ensures var tr := RuleLine(sc, rule, i + 1);
            && tr != [] && H.Last(tr) == H.TickAt(NowAt(sc, i))
            && (ReportedAt(sc, rule, i) <==> H.ReportsAt(sc.rules[rule], tr, |tr| - 1))
  {
    var tr := RuleLine(sc, rule, i + 1);
    assert tr[..|tr| - 1] == RuleBeforeTick(sc, rule, i);
  }

  /** Every detection of a sustained rule, at the tick of iteration `i`, is backed by an
      uninterrupted stretch of the rule's run: from a step `b`, through a confirming
      observation `s` at least the window later and at least `sustain` before the tick,
      every observation is the target, and successive ones are at most `max_gap` plus one
      tick period apart.  The run opened at `s`, and the detection's time is that of the
      first tick at which it has lasted: less than a tick period after it was due, and never
      the time of the observation. */
  lemma SustainedDetection(sc: Scene, rule: nat, i: nat) returns (b: nat, s: nat)
    requires Replayable(sc) && Ordered(sc) && Accepted(sc) && rule < |sc.rules|
    requires sc.rules[rule].kind.Sustained? && ReportedAt(sc, rule, i)
    ensures var tr, cfg := RuleLine(sc, rule, i + 1), sc.rules[rule];
            && b <= s < |tr| && tr[b].Obs? && tr[s].Obs?
            && Sustained.OpensAt(cfg, tr, s)
            && NowAt(sc, i) - sc.tick < tr[s].o.at + cfg.sustain <= NowAt(sc, i)
            && tr[s].o.at < NowAt(sc, i)
            && tr[s].o.at - tr[b].o.at >= cfg.confirmWindow
            && Rates.AcceptCount(tr, b, s + 1) >= cfg.confirmCount
            && (forall j :: b <= j < |tr| && tr[j].Obs? ==> tr[j].o.value == cfg.target)
            && (forall j :: b <= j < |tr| ==> !H.BlindsAt(cfg, tr, j))
            && (forall p, q :: b <= p < q < |tr| && tr[p].Obs? && tr[q].Obs? && (forall j :: p < j < q ==> !tr[j].Obs?)
                  ==> tr[q].o.at - tr[p].o.at <= cfg.maxGap + sc.tick)
  {
    var tr, cfg := RuleLine(sc, rule, i + 1), sc.rules[rule];
    AcceptedExactly(sc, |sc.rules|);
    assert Usable(cfg) && cfg.sustain > 0;
    hide RuleLine, RuleBeforeTick, ReportedAt, Rates.AcceptCount, Reports, H.Evidence, H.Accepted, H.Confirms;
    hide NowAt, Usable, Accepted, H.Run, H.ConfirmsAt, Sustained.FallsDue, Sustained.OpensAt;
    ReportedStep(sc, rule, i);
    b, s := Rates.SustainedSound(cfg, tr, |tr| - 1);
    FallsDueInTime(sc, rule, i, tr, s);
    NoneRefusedInLine(sc, rule, i);
    forall j | b <= j < |tr| ensures !H.BlindsAt(cfg, tr, j) && (tr[j].Obs? ==> tr[j].o.value == cfg.target) {
      assert j < |tr| - 1 ==> !Sustained.BreaksAt(cfg, tr, j);
    }
    GapsBounded(sc, rule, i, tr, b);
  }

  lemma NoneRefusedInLine(sc: Scene, rule: nat, i: nat)
    requires Replayable(sc) && Ordered(sc) && rule < |sc.rules|
    ensures LosingSight.NoneRefused(RuleLine(sc, rule, i + 1))
  {
    hide RuleLine;
    var tr := RuleLine(sc, rule, i + 1);
    forall k: nat | k < |tr| && tr[k].Obs? ensures H.AcceptsAt(tr, k) {
      NothingRefused(sc, rule, i, k);
    }
  }

  /** While sight is not lost, successive observations of a replay are at most `max_gap`
      plus one tick period apart. */
  lemma GapsBounded(sc: Scene, rule: nat, i: nat, tr: seq<H.Event>, b: nat)
    requires Replayable(sc) && Ordered(sc) && rule < |sc.rules| && Usable(sc.rules[rule])
    requires tr == RuleLine(sc, rule, i + 1) && LosingSight.NoneRefused(tr)
    requires forall j :: b <= j < |tr| ==> !H.BlindsAt(sc.rules[rule], tr, j)
    ensures forall p, q :: b <= p < q < |tr| && tr[p].Obs? && tr[q].Obs? && (forall j :: p < j < q ==> !tr[j].Obs?)
                  ==> tr[q].o.at - tr[p].o.at <= sc.rules[rule].maxGap + sc.tick
  {
    RuleLinePaced(sc, rule, i);
    hide RuleLine, Rates.TickBetween, H.Accepted, NowAt, Usable, H.BlindsAt;
    forall p, q | b <= p < q < |tr| && tr[p].Obs? && tr[q].Obs? && (forall j :: p < j < q ==> !tr[j].Obs?)
      ensures tr[q].o.at - tr[p].o.at <= sc.rules[rule].maxGap + sc.tick
    {
      Rates.GapBound(sc.rules[rule], tr, sc.tick, p, q);
    }
  }

  /** A run falls due at the first tick at which it has lasted for `sustain`. */
  lemma FallsDueInTime(sc: Scene, rule: nat, i: nat, tr: seq<H.Event>, s: nat)
    requires Replayable(sc) && Ordered(sc) && rule < |sc.rules| && sc.rules[rule].sustain > 0
    requires tr == RuleLine(sc, rule, i + 1) && tr[|tr| - 1] == H.TickAt(NowAt(sc, i))
    requires Sustained.FallsDue(sc.rules[rule], tr, s, |tr| - 1)
    ensures s < |tr| && tr[s].Obs? && Sustained.OpensAt(sc.rules[rule], tr, s)
    ensures NowAt(sc, i) - sc.tick < tr[s].o.at + sc.rules[rule].sustain <= NowAt(sc, i)
  {
    var cfg := sc.rules[rule];
    hide RuleLine, NowAt, Sustained.FallsDue, Sustained.OpensAt;
    Rates.DueRun(cfg, tr, s, |tr| - 1);
    if s >= |RuleLine(sc, rule, i)| {
      CapturedInIteration(sc, rule, i, s);
    } else {
      PreviousTick(sc, rule, i, tr, s);
    }
  }

  /** Every detection of an appeared rule, at the tick of iteration `i`, is backed by a full
      confirming run of the opposite value ending at step `a`, then one of the target ending
      at step `b`, with sight never lost and nothing else latched in between.  The
      detection's time is less than a tick period after the observation that completed it,
      and is that observation's time exactly when that is the time of a tick. */
  lemma AppearedDetection(sc: Scene, rule: nat, i: nat) returns (a: nat, b: nat)
    requires Replayable(sc) && Accepted(sc) && rule < |sc.rules|
    requires sc.rules[rule].kind.Appeared? && ReportedAt(sc, rule, i)
    ensures var tr, cfg := RuleLine(sc, rule, i + 1), sc.rules[rule];
            && a < b < |tr|
            && H.ConfirmsAt(cfg, tr, a, OppositeOf(cfg.target)) && H.ConfirmsAt(cfg, tr, b, cfg.target)
            && (forall j :: a < j < b ==> !H.BlindsAt(cfg, tr, j) && !Appeared.LatchesAt(cfg, tr, j))
            && (forall j :: b < j < |tr| - 1 ==> tr[j].Obs?)
            && (Ordered(sc) ==> NowAt(sc, i) - sc.tick < tr[b].o.at <= NowAt(sc, i))
            && (Ordered(sc) ==> (NowAt(sc, i) == tr[b].o.at <==> OnGrid(sc, tr[b].o.at)))
  {
    AcceptedExactly(sc, |sc.rules|);
    assert Usable(sc.rules[rule]);
    hide Usable, Accepted, Reports, ReportedAt, RuleBeforeTick, RuleLine, NowAt, OnGrid;
    hide H.Evidence, H.Accepted, H.Confirms, H.Run, H.BlindsAt;
    ReportedStep(sc, rule, i);
    var tr := RuleLine(sc, rule, i + 1);
    a, b := Appeared.AppearedSound(sc.rules[rule], tr, |tr| - 1);
    if Ordered(sc) {
      InLastIteration(sc, rule, i, tr, b);
      CapturedInIteration(sc, rule, i, b);
      FirstTickFrom(sc, i, tr[b].o.at);
    }
  }

  /** An observation with no tick between it and the last one came in the last iteration. */
  lemma InLastIteration(sc: Scene, rule: nat, i: nat, tr: seq<H.Event>, b: nat)
    requires sc.samples != [] && tr == RuleLine(sc, rule, i + 1) && b < |tr| - 1
    requires forall j :: b <= j < |tr| - 1 ==> tr[j].Obs?
    ensures b >= |RuleLine(sc, rule, i)|
  {
    hide RuleLine;
    if b < |RuleLine(sc, rule, i)| {
      PreviousTick(sc, rule, i, tr, b);
    }
  }

  /** Two detections of one sustained rule are more than the sustain duration and the
      confirmation window apart. */
  lemma SustainedDetectionRate(sc: Scene, rule: nat, i: nat, j: nat)
    requires Replayable(sc) && Ordered(sc) && Accepted(sc) && rule < |sc.rules|
    requires sc.rules[rule].kind.Sustained? && i < j && ReportedAt(sc, rule, i) && ReportedAt(sc, rule, j)
    ensures NowAt(sc, j) - NowAt(sc, i) > sc.rules[rule].sustain + sc.rules[rule].confirmWindow
  {
    AcceptedExactly(sc, |sc.rules|);
    RuleLinePaced(sc, rule, j);
    var k := ReportedEarlier(sc, rule, i, j);
    ReportedStep(sc, rule, j);
    hide RuleLine, RuleBeforeTick, ReportedAt, NowAt, Reports, H.Run;
    Rates.SustainedRate(sc.rules[rule], RuleLine(sc, rule, j + 1), k, |RuleLine(sc, rule, j + 1)| - 1);
  }

  /** The report at iteration `i`, found again in the run up to a later iteration `j`. */
  lemma ReportedEarlier(sc: Scene, rule: nat, i: nat, j: nat) returns (k: nat)
    requires Replayable(sc) && rule < |sc.rules| && i < j && ReportedAt(sc, rule, i)
    ensures var tr := RuleLine(sc, rule, j + 1);
            k < |tr| - 1 && H.ReportsAt(sc.rules[rule], tr, k) && tr[k].now == NowAt(sc, i)
  {
    hide RuleLine, RuleBeforeTick, ReportedAt, NowAt, H.Run, Reports;
    ReportedStep(sc, rule, i);
    LineExtends(sc, rule, i + 1, j + 1);
    var a, tr := RuleLine(sc, rule, i + 1), RuleLine(sc, rule, j + 1);
    k := |a| - 1;
    assert a[..k] == tr[..k] && a[k] == tr[k];
  }

  /** Two latched appearances of one rule in a replay. */
  lemma AppearanceDetectionRate(sc: Scene, rule: nat, i: nat, k1: nat, k2: nat)
    requires Replayable(sc) && Ordered(sc) && Accepted(sc) && rule < |sc.rules| && sc.rules[rule].kind.Appeared?
    requires k1 < k2 < |RuleLine(sc, rule, i + 1)|
    requires Appeared.LatchesAt(sc.rules[rule], RuleLine(sc, rule, i + 1), k1)
    requires Appeared.LatchesAt(sc.rules[rule], RuleLine(sc, rule, i + 1), k2)
    ensures var tr, cfg := RuleLine(sc, rule, i + 1), sc.rules[rule];
            && tr[k2].o.at - tr[k1].o.at >= 2 * cfg.confirmWindow
            && Rates.AcceptCount(tr, k1 + 1, k2 + 1) >= 2 * cfg.confirmCount
  {
    AcceptedExactly(sc, |sc.rules|);
    RuleLinePaced(sc, rule, i);
    hide RuleLine;
    Rates.AppearanceRate(sc.rules[rule], RuleLine(sc, rule, i + 1), k1, k2);
  }
}
