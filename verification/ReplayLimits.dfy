/**
 Where the guarantees of a replay end, exactly: when a gap is noticed, and when every
 latched appearance has a detection of its own.  Both depend on nothing but the samples'
 times, the tick and the rule.
 */
module ReplayLimits {
  import opened Machine
  import opened LosingSight
  import opened Reporting
  import opened Scenes
  import opened ReplayRuns
  import opened ReplayResults
  import H = History
  import Appeared
  import Rates

  // ---------------------------------------------------------------- gaps

  /** The cadence has a tick strictly between two times. */
  ghost predicate TickWithin(sc: Scene, after: int, before: int)
    requires sc.samples != []
  {
    exists i: nat :: after < NowAt(sc, i) < before
  }

  /** A tick more than `max_gap` after the observation at `p` and not after the one at `q`
      is one of the cadence, and comes before the later observation was made. */
  lemma LateOnGrid(sc: Scene, rule: nat, n: nat, tr: seq<H.Event>, p: nat, q: nat)
    requires Replayable(sc) && Ordered(sc) && rule < |sc.rules| && sc.rules[rule].maxGap > 0
    requires n > 0 && tr == RuleLine(sc, rule, n) && p < q < |tr| && tr[p].Obs? && tr[q].Obs?
    ensures (exists j :: p < j < q && tr[j].TickAt? && tr[j].now - tr[p].o.at > sc.rules[rule].maxGap) <==>
            TickWithin(sc, tr[p].o.at + sc.rules[rule].maxGap, tr[q].o.at)
  {
    hide RuleLine, NowAt, Ordered;
    var gap := sc.rules[rule].maxGap;
    if j :| p < j < q && tr[j].TickAt? && tr[j].now - tr[p].o.at > gap {
      var i := TickOnGrid(sc, rule, n, j);
      TickInLine(sc, rule, i, n);
      TickAfter(sc, rule, n, q, i);
    }
    if i: nat :| tr[p].o.at + gap < NowAt(sc, i) < tr[q].o.at {
      EarlierThanLast(sc, rule, n, tr, q, i);
      TickInLine(sc, rule, i, n);
      TickAfter(sc, rule, n, p, i);
      TickAfter(sc, rule, n, q, i);
      var j := TickStep(sc, rule, i);
      assert p < j < q && tr[j].TickAt? && tr[j].now - tr[p].o.at > gap;
    }
  }

  /** A tick before an observation of the run is a tick of the run. */
  lemma EarlierThanLast(sc: Scene, rule: nat, n: nat, tr: seq<H.Event>, q: nat, i: nat)
    requires Replayable(sc) && Ordered(sc) && n > 0 && tr == RuleLine(sc, rule, n)
    requires q < |tr| && tr[q].Obs? && NowAt(sc, i) < tr[q].o.at
    ensures i < n
  {
    hide RuleLine, NowAt, Ordered;
    TickInLine(sc, rule, n - 1, n);
    TickAfter(sc, rule, n, q, n - 1);
    if n - 1 < i {
      NowOrder(sc, n - 1, i);
    }
  }

  /** Between two successive observations of a rule, sight is lost exactly when the process
      was restarted or a tick of the cadence lies between `max_gap` after the first one and
      the second one. */
  lemma GapNoticedExactly(sc: Scene, rule: nat, n: nat, tr: seq<H.Event>, p: nat, q: nat)
    requires Replayable(sc) && Ordered(sc) && rule < |sc.rules| && sc.rules[rule].maxGap > 0
    requires n > 0 && tr == RuleLine(sc, rule, n) && p < q < |tr| && tr[p].Obs? && tr[q].Obs?
    requires forall j :: p < j < q ==> !tr[j].Obs?
    ensures (exists j :: p < j < q && H.BlindsAt(sc.rules[rule], tr, j)) <==>
            || (exists j :: p < j < q && tr[j].Restart?)
            || TickWithin(sc, tr[p].o.at + sc.rules[rule].maxGap, tr[q].o.at)
  {
    NoneRefusedInLine(sc, rule, n - 1);
    LateOnGrid(sc, rule, n, tr, p, q);
    hide RuleLine, NowAt, Ordered, TickWithin, H.BlindsAt, H.Accepted;
    Rates.LostExactly(sc.rules[rule], tr, p, q);
    if j :| p < j < q && tr[j].TickAt? && tr[j].now - tr[p].o.at > sc.rules[rule].maxGap {
      assert Rates.LateAt(sc.rules[rule], tr, p, j);
    }
    if j :| p < j < q && tr[j].Restart? {
      assert Rates.LateAt(sc.rules[rule], tr, p, j);
    }
  }

  // ---------------------------------------------------------------- reports of appearances

  /** An iteration reports an appeared rule exactly if it latched in that iteration. */
  lemma IterationReports(sc: Scene, rule: nat, i: nat)
    requires sc.samples != [] && rule < |sc.rules|
    requires Usable(sc.rules[rule]) && sc.rules[rule].kind.Appeared?
    ensures var cfg, a, b := sc.rules[rule], RuleLine(sc, rule, i), RuleLine(sc, rule, i + 1);
            && Latches(cfg, a) <= Latches(cfg, b)
            && (ReportedAt(sc, rule, i) <==> Latches(cfg, a) < Latches(cfg, b))
  {
    BeforeTickParts(sc, rule, i);
    hide Latches, H.Run, RuleLine, RuleBeforeTick, Answers, Reboots, NextSample, NextRestart, NowAt, Reports;
    NotPending(sc, rule, i);
    IterationDrains(sc, sc.rules[rule], rule, RuleLine(sc, rule, i), NextRestart(sc, i + 1) - NextRestart(sc, i),
                    NextSample(sc, i), NextSample(sc, i + 1), NowAt(sc, i));
  }

  /** Restarts, answers and a tick, told to a rule with nothing pending. */
  lemma IterationDrains(sc: Scene, cfg: Config, rule: nat, tr: seq<H.Event>, n: nat, a: nat, b: nat, now: int)
    requires Usable(cfg) && cfg.kind.Appeared? && a <= b <= |sc.samples| && !H.Run(cfg, tr).reaction.pending
    ensures var before := tr + Reboots(n) + Answers(sc, rule, a, b);
            var after := before + [H.TickAt(now)];
            && Latches(cfg, tr) <= Latches(cfg, after)
            && (Reports(cfg, H.Run(cfg, before), now) <==> Latches(cfg, tr) < Latches(cfg, after))
  {
    hide Latches, H.Run, Answers, Reboots, Reports, Usable;
    RebootsQuiet(cfg, tr, n);
    AnswersPending(sc, cfg, rule, tr + Reboots(n), a, b);
    TickReports(cfg, tr + Reboots(n) + Answers(sc, rule, a, b), now);
  }

  lemma BeforeTickParts(sc: Scene, rule: nat, i: nat)
    requires sc.samples != []
    ensures NextRestart(sc, i) <= NextRestart(sc, i + 1) && NextSample(sc, i) <= NextSample(sc, i + 1)
    ensures RuleBeforeTick(sc, rule, i) ==
            RuleLine(sc, rule, i) + Reboots(NextRestart(sc, i + 1) - NextRestart(sc, i))
              + Answers(sc, rule, NextSample(sc, i), NextSample(sc, i + 1))
    ensures RuleLine(sc, rule, i + 1) == RuleBeforeTick(sc, rule, i) + [H.TickAt(NowAt(sc, i))]
  {
    hide NowAt, Answers, Reboots, NextSample, NextRestart, Skip;
    TimelineUnfolds(sc, i);
  }

  /** A tick latches nothing, and reports an appeared rule if something is pending. */
  lemma TickReports(cfg: Config, tr: seq<H.Event>, now: int)
    requires cfg.kind.Appeared?
    ensures Latches(cfg, tr + [H.TickAt(now)]) == Latches(cfg, tr)
    ensures Reports(cfg, H.Run(cfg, tr), now) <==> H.Run(cfg, tr).reaction.pending
  {
    RunStep(cfg, tr, H.TickAt(now));
  }

  lemma NotPending(sc: Scene, rule: nat, i: nat)
    requires sc.samples != []
    ensures forall cfg :: !H.Run(cfg, RuleLine(sc, rule, i)).reaction.pending
  {
    forall cfg ensures !H.Run(cfg, RuleLine(sc, rule, i)).reaction.pending {
      LineEnds(sc, rule, i);
      hide RuleLine;
      var tr := RuleLine(sc, rule, i);
      assert H.Run(cfg, tr) == H.Step(cfg, H.Run(cfg, H.Pre(tr)), H.Last(tr));
    }
  }

  lemma {:induction false} RebootsQuiet(cfg: Config, tr: seq<H.Event>, n: nat)
    requires !H.Run(cfg, tr).reaction.pending
    ensures !H.Run(cfg, tr + Reboots(n)).reaction.pending && Latches(cfg, tr + Reboots(n)) == Latches(cfg, tr)
  {
    if n == 0 {
      assert tr + Reboots(n) == tr;
    } else {
      RebootsQuiet(cfg, tr, n - 1);
      assert tr + Reboots(n) == (tr + Reboots(n - 1)) + [H.Restart];
      RunStep(cfg, tr + Reboots(n - 1), H.Restart);
    }
  }

  lemma AnswersPending(sc: Scene, cfg: Config, rule: nat, tr: seq<H.Event>, a: nat, b: nat)
    requires Usable(cfg) && cfg.kind.Appeared? && a <= b <= |sc.samples|
    requires !H.Run(cfg, tr).reaction.pending
    ensures var y := tr + Answers(sc, rule, a, b);
            && Latches(cfg, tr) <= Latches(cfg, y)
            && (H.Run(cfg, y).reaction.pending <==> Latches(cfg, tr) < Latches(cfg, y))
  {
    var answers := Answers(sc, rule, a, b);
    var y := tr + answers;
    assert y[..|tr|] == tr;
    forall j | |tr| <= j < |y| ensures y[j].Obs? {
      AnswersAre(sc, rule, a, b, j - |tr|);
    }
    hide Latches, H.Run, Answers;
    PendingIsLatched(cfg, y, |tr|);
    LatchesMonotone(cfg, y, |tr|);
  }

  /** A rule has no more detections than it latched appearances, and fewer exactly if some
      iteration latched more than one. */
  lemma {:induction false} FewerReports(sc: Scene, rule: nat, n: nat)
    requires sc.samples != [] && rule < |sc.rules|
    requires Usable(sc.rules[rule]) && sc.rules[rule].kind.Appeared?
    ensures |ReportTimes(sc, rule, n)| <= Latches(sc.rules[rule], RuleLine(sc, rule, n))
    ensures |ReportTimes(sc, rule, n)| < Latches(sc.rules[rule], RuleLine(sc, rule, n)) <==>
            exists i: nat :: i < n && LatchesTwice(sc, rule, i)
  {
    hide ReportedAt, NowAt, RuleLine, Latches;
    if n == 0 {
      LineEnds(sc, rule, 0);
      NothingLatchedYet(sc.rules[rule]);
    } else {
      FewerReports(sc, rule, n - 1);
      IterationReports(sc, rule, n - 1);
      LatchesInOne(sc, rule, n - 1);
      hide LatchesTwice;
      if i: nat :| i < n - 1 && LatchesTwice(sc, rule, i) {
        assert |ReportTimes(sc, rule, n)| < Latches(sc.rules[rule], RuleLine(sc, rule, n));
      }
      if i: nat :| i < n && LatchesTwice(sc, rule, i) {
        assert i == n - 1 || i < n - 1;
      }
    }
  }

  lemma LatchesInOne(sc: Scene, rule: nat, i: nat)
    requires sc.samples != [] && rule < |sc.rules|
    ensures LatchesTwice(sc, rule, i) <==>
            Latches(sc.rules[rule], RuleLine(sc, rule, i)) + 2 <= Latches(sc.rules[rule], RuleLine(sc, rule, i + 1))
  {
  }

  lemma NothingLatchedYet(cfg: Config)
    ensures Latches(cfg, [H.Restart]) == 0
  {
    assert [] + [H.Restart] == [H.Restart];
    RunStep(cfg, [], H.Restart);
  }

  /** Iteration `i` latches more than one appearance of the rule. */
  predicate LatchesTwice(sc: Scene, rule: nat, i: nat)
    requires sc.samples != [] && rule < |sc.rules|
  {
    Latches(sc.rules[rule], RuleLine(sc, rule, i)) + 2 <= Latches(sc.rules[rule], RuleLine(sc, rule, i + 1))
  }

  /** Two appearances are two confirmation windows apart at least, which is more than there
      is between two ticks if the tick is no longer than that. */
  lemma ShortTick(sc: Scene, rule: nat, i: nat)
    requires Replayable(sc) && Ordered(sc) && Accepted(sc) && rule < |sc.rules| && sc.rules[rule].kind.Appeared?
    requires sc.tick <= 2 * sc.rules[rule].confirmWindow
    ensures !LatchesTwice(sc, rule, i)
  {
    if LatchesTwice(sc, rule, i) {
      hide RuleLine, Latches, NowAt, Accepted, Ordered, Appeared.LatchesAt, Rates.AcceptCount;
      var cfg, tr := sc.rules[rule], RuleLine(sc, rule, i + 1);
      TickInLine(sc, rule, i, i + 1);
      var k1, k2 := LastTwoLatches(cfg, tr, |RuleLine(sc, rule, i)|);
      AppearanceDetectionRate(sc, rule, i, k1, k2);
      CapturedInIteration(sc, rule, i, k1);
      CapturedInIteration(sc, rule, i, k2);
    }
  }

  lemma LastTwoLatches(cfg: Config, tr: seq<H.Event>, m: nat) returns (k1: nat, k2: nat)
    requires m <= |tr| && Latches(cfg, tr[..m]) + 2 <= Latches(cfg, tr)
    ensures m <= k1 < k2 < |tr| && tr[k1].Obs? && tr[k2].Obs?
    ensures Appeared.LatchesAt(cfg, tr, k1) && Appeared.LatchesAt(cfg, tr, k2)
  {
    hide Latches, Appeared.LatchesAt;
    k2 := LastLatch(cfg, tr, m);
    assert tr[..k2][..m] == tr[..m];
    k1 := LastLatch(cfg, tr[..k2], m);
    LatchInPrefix(cfg, tr, k2, k1);
    ObsLatch(cfg, tr, k1);
    ObsLatch(cfg, tr, k2);
  }

  lemma ObsLatch(cfg: Config, tr: seq<H.Event>, k: nat)
    requires k < |tr| && Appeared.LatchesAt(cfg, tr, k)
    ensures tr[k].Obs?
  {
  }

  lemma LatchInPrefix(cfg: Config, tr: seq<H.Event>, n: nat, k: nat)
    requires k < n <= |tr|
    ensures Appeared.LatchesAt(cfg, tr[..n], k) == Appeared.LatchesAt(cfg, tr, k)
  {
    assert tr[..n][..k] == tr[..k] && tr[..n][..k + 1] == tr[..k + 1];
  }

  /** The rule has as many detections as it latched appearances. */
  predicate EachReported(sc: Scene, rule: nat, n: nat)
    requires sc.samples != [] && rule < |sc.rules|
  {
    |TimesOf(Detections(sc, n), rule)| == Latches(sc.rules[rule], RuleLine(sc, rule, n))
  }

  lemma EachReportedExactly(sc: Scene, rule: nat, n: nat)
    requires sc.samples != [] && rule < |sc.rules|
    requires Usable(sc.rules[rule]) && sc.rules[rule].kind.Appeared?
    ensures |TimesOf(Detections(sc, n), rule)| <= Latches(sc.rules[rule], RuleLine(sc, rule, n))
    ensures EachReported(sc, rule, n) <==> !exists i: nat :: i < n && LatchesTwice(sc, rule, i)
  {
    FewerReports(sc, rule, n);
    DetectionsOfRule(sc, rule, n);
    hide Detections, ReportTimes, TimesOf, Latches, LatchesTwice;
  }

  /** With a tick no longer than two confirmation windows, every latched appearance has a
      detection of its own. */
  lemma ReportPerLatch(sc: Scene, rule: nat, n: nat)
    requires Replayable(sc) && Ordered(sc) && Accepted(sc) && rule < |sc.rules| && sc.rules[rule].kind.Appeared?
    requires sc.tick <= 2 * sc.rules[rule].confirmWindow
    ensures EachReported(sc, rule, n)
  {
    AcceptedExactly(sc, |sc.rules|);
    EachReportedExactly(sc, rule, n);
    hide EachReported, LatchesTwice;
    forall i: nat | i < n ensures !LatchesTwice(sc, rule, i) {
      ShortTick(sc, rule, i);
    }
  }

  // ---------------------------------------------------------------- further ticks

  lemma {:induction false} NoReportsBefore(sc: Scene, cfg: Config, rule: nat, tr: seq<H.Event>, n: nat, a: nat, b: nat)
    requires a <= b <= |sc.samples|
    ensures ReportCount(cfg, tr + Reboots(n) + Answers(sc, rule, a, b)) == ReportCount(cfg, tr)
    decreases n, b
  {
    hide Answer, ReportCount, H.Run;
    if a < b {
      NoReportsBefore(sc, cfg, rule, tr, n, a, b - 1);
      if rule in sc.samples[b - 1].labels {
        var y, e := tr + Reboots(n) + Answers(sc, rule, a, b - 1), H.Obs(Answer(sc, b - 1, rule));
        assert tr + Reboots(n) + Answers(sc, rule, a, b) == y + [e];
        RunStep(cfg, y, e);
      }
    } else if n > 0 {
      NoReportsBefore(sc, cfg, rule, tr, n - 1, a, b);
      var y := tr + Reboots(n - 1);
      assert y + Answers(sc, rule, a, b) == y;
      assert tr + Reboots(n) + Answers(sc, rule, a, b) == y + [H.Restart];
      RunStep(cfg, y, H.Restart);
    } else {
      assert tr + Reboots(n) + Answers(sc, rule, a, b) == tr;
    }
  }

  /** The reports of a rule's run are the iterations that report it. */
  lemma {:induction false} ReportsOfLine(sc: Scene, rule: nat, n: nat)
    requires sc.samples != [] && rule < |sc.rules|
    ensures ReportCount(sc.rules[rule], RuleLine(sc, rule, n)) == |ReportTimes(sc, rule, n)|
  {
    hide RuleLine, RuleBeforeTick, NowAt, NextSample, NextRestart, Answers, Reboots, H.Run, Reports, ReportCount;
    var cfg := sc.rules[rule];
    if n == 0 {
      LineEnds(sc, rule, 0);
      NothingReportedYet(cfg);
    } else {
      var i := n - 1;
      ReportsOfLine(sc, rule, i);
      BeforeTickParts(sc, rule, i);
      NoReportsBefore(sc, cfg, rule, RuleLine(sc, rule, i), NextRestart(sc, i + 1) - NextRestart(sc, i),
                      NextSample(sc, i), NextSample(sc, i + 1));
      RunStep(cfg, RuleBeforeTick(sc, rule, i), H.TickAt(NowAt(sc, i)));
    }
  }

  lemma NothingReportedYet(cfg: Config)
    ensures ReportCount(cfg, [H.Restart]) == 0
  {
    assert [] + [H.Restart] == [H.Restart];
    RunStep(cfg, [], H.Restart);
  }

  /** Further ticks in between never make the rule's run report more. */
  ghost predicate ReportsAllItCan(sc: Scene, rule: nat, n: nat)
    requires sc.samples != [] && rule < |sc.rules|
  {
    forall tr' :: MoreTicks(RuleLine(sc, rule, n), tr') ==>
      ReportCount(sc.rules[rule], tr') <= ReportCount(sc.rules[rule], RuleLine(sc, rule, n))
  }

  lemma ReportsAllExactly(sc: Scene, rule: nat, n: nat)
    requires sc.samples != [] && rule < |sc.rules|
    requires Usable(sc.rules[rule]) && sc.rules[rule].kind.Appeared?
    ensures ReportsAllItCan(sc, rule, n) <==> EachReported(sc, rule, n)
  {
    hide RuleLine, ReportCount, Latches, MoreTicks, Detections, TimesOf, ReportTimes;
    ReportsOfLine(sc, rule, n);
    DetectionsOfRule(sc, rule, n);
    FurtherTicksExactly(sc.rules[rule], RuleLine(sc, rule, n));
  }
}
