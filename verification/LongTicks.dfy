/**
 The converse of `ReplayLimits.ReportPerLatch`: for every appeared rule and every tick that
 is longer than two of its confirmation windows there is a scene in which two appearances
 share a detection.
 */
module LongTicks {
  import opened Machine
  import opened LosingSight
  import opened Reporting
  import opened Scenes
  import opened ReplayRuns
  import opened ReplayResults
  import opened ReplayLimits
  import H = History
  import Appeared
  import Rates

  /** Four runs of answers: absence, presence, absence and presence, each confirmed by `count`
      answers at one moment and one more a window later.  The first presence is confirmed
      after the second tick, and the second one at the third. */
  function TimeOf(cfg: Config, tick: int, k: nat): int {
    var n, w := cfg.confirmCount, cfg.confirmWindow;
    if k < n then 0
    else if k == n then w
    else if k < 2 * n + 1 then 2 * tick - 3 * w
    else if k < 3 * n + 2 then 2 * tick - 2 * w
    else if k < 4 * n + 3 then 2 * tick - w
    else 2 * tick
  }

  function ValueAt(cfg: Config, k: nat): Value {
    var n := cfg.confirmCount;
    if k <= n || 2 * n + 2 <= k <= 3 * n + 2 then OppositeOf(cfg.target) else cfg.target
  }

  function Moment(cfg: Config, tick: int, k: nat): Sample {
    Sample(TimeOf(cfg, tick, k), "", map[0 := ValueAt(cfg, k)])
  }

  function Burst(cfg: Config, tick: int): (sc: Scene)
    ensures sc.samples != [] && sc.rules == [cfg]
  {
    Scene("burst", "camera", Test, [cfg],
          seq(4 * cfg.confirmCount + 4, k requires k >= 0 => Moment(cfg, tick, k)), [], tick, [])
  }

  /** The rules and ticks in question; the tick is no coarser than the gap, as in every
      scene that a manifest describes. */
  predicate LongTick(cfg: Config, tick: int) {
    && Usable(cfg) && cfg.kind.Appeared? && IdFits(cfg.id)
    && 2 * cfg.confirmWindow < tick <= cfg.maxGap
  }

  lemma BurstRuns(cfg: Config, tick: int)
    requires LongTick(cfg, tick)
    ensures var sc := Burst(cfg, tick);
            && Replayable(sc) && Ordered(sc) && Accepted(sc)
            && NowAt(sc, 0) == 0 && NowAt(sc, 1) == tick && NowAt(sc, 2) == 2 * tick
  {
    var sc := Burst(cfg, tick);
    AcceptedExactly(sc, 1);
    hide Usable;
  }

  // ---------------------------------------------------------------- evidence

  /** What the first `m` samples answer. */
  function Told(sc: Scene, m: nat): (h: seq<Observation>)
    requires m <= |sc.samples| && forall k :: 0 <= k < m ==> 0 in sc.samples[k].labels
    ensures |h| == m
  {
    seq(m, k requires 0 <= k < m => Answer(sc, k, 0))
  }

  predicate AllLabelled(sc: Scene) {
    forall k :: 0 <= k < |sc.samples| ==> 0 in sc.samples[k].labels
  }

  /** Everything that was told so far was accepted and is still evidence. */
  predicate Remembers(sc: Scene, cfg: Config, tr: seq<H.Event>, m: nat)
    requires AllLabelled(sc) && m <= |sc.samples|
  {
    H.Accepted(tr) == Told(sc, m) && H.Evidence(cfg, tr) == Told(sc, m)
  }

  lemma RemembersOne(sc: Scene, cfg: Config, tr: seq<H.Event>, m: nat)
    requires AllLabelled(sc) && Ordered(sc) && m < |sc.samples| && Remembers(sc, cfg, tr, m)
    ensures Remembers(sc, cfg, tr + [H.Obs(Answer(sc, m, 0))], m + 1)
  {
    var o := Answer(sc, m, 0);
    assert H.Pre(tr + [H.Obs(o)]) == tr;
    assert Told(sc, m + 1) == Told(sc, m) + [o];
    assert H.Acceptable(Told(sc, m), o) by {
      if m > 0 {
        assert H.Last(Told(sc, m)) == Answer(sc, m - 1, 0);
      }
    }
    hide H.Acceptable, Told, Answer;
  }

  lemma {:induction false} RemembersAnswers(sc: Scene, cfg: Config, tr: seq<H.Event>, a: nat, b: nat)
    requires AllLabelled(sc) && Ordered(sc) && a <= b <= |sc.samples| && Remembers(sc, cfg, tr, a)
    ensures |Answers(sc, 0, a, b)| == b - a && Remembers(sc, cfg, tr + Answers(sc, 0, a, b), b)
  {
    hide Remembers, Answer, Ordered;
    if a == b {
      assert tr + Answers(sc, 0, a, b) == tr;
    } else {
      RemembersAnswers(sc, cfg, tr, a, b - 1);
      RemembersOne(sc, cfg, tr + Answers(sc, 0, a, b - 1), b - 1);
      assert tr + Answers(sc, 0, a, b) == (tr + Answers(sc, 0, a, b - 1)) + [H.Obs(Answer(sc, b - 1, 0))];
    }
  }

  lemma RemembersTick(sc: Scene, cfg: Config, tr: seq<H.Event>, m: nat, now: int)
    requires AllLabelled(sc) && 0 < m <= |sc.samples| && Remembers(sc, cfg, tr, m)
    requires now - sc.samples[m - 1].at <= cfg.maxGap
    ensures Remembers(sc, cfg, tr + [H.TickAt(now)], m)
    ensures !H.Expiring(cfg, H.Accepted(tr), now)
  {
    assert H.Pre(tr + [H.TickAt(now)]) == tr;
    assert H.Last(Told(sc, m)) == Answer(sc, m - 1, 0);
  }

  // ---------------------------------------------------------------- iterations

  /** A scene without restarts in which every sample answers for the rule. */
  predicate Plain(sc: Scene) {
    Replayable(sc) && Ordered(sc) && AllLabelled(sc) && sc.restarts == []
  }

  lemma PlainLine(sc: Scene, i: nat)
    requires Plain(sc)
    ensures NextSample(sc, i) <= NextSample(sc, i + 1)
    ensures RuleLine(sc, 0, i + 1) ==
            RuleLine(sc, 0, i) + Answers(sc, 0, NextSample(sc, i), NextSample(sc, i + 1)) + [H.TickAt(NowAt(sc, i))]
  {
    hide RuleLine, RuleBeforeTick, NextSample, NextRestart, Answers, NowAt, Ordered;
    BeforeTickParts(sc, 0, i);
    assert Reboots(0) == [] && NextRestart(sc, i) == NextRestart(sc, i + 1) == 0;
  }

  lemma RemembersIteration(sc: Scene, cfg: Config, i: nat)
    requires Plain(sc) && Remembers(sc, cfg, RuleLine(sc, 0, i), NextSample(sc, i))
    requires 0 < NextSample(sc, i + 1) && NowAt(sc, i) - sc.samples[NextSample(sc, i + 1) - 1].at <= cfg.maxGap
    ensures Remembers(sc, cfg, RuleLine(sc, 0, i + 1), NextSample(sc, i + 1))
    ensures !H.BlindsAt(cfg, RuleLine(sc, 0, i + 1), TickStep(sc, 0, i))
  {
    hide RuleLine, NextSample, Answers, NowAt, Remembers;
    PlainLine(sc, i);
    var a, b := NextSample(sc, i), NextSample(sc, i + 1);
    var before, tr := RuleLine(sc, 0, i) + Answers(sc, 0, a, b), RuleLine(sc, 0, i + 1);
    RemembersAnswers(sc, cfg, RuleLine(sc, 0, i), a, b);
    RemembersTick(sc, cfg, before, b, NowAt(sc, i));
    assert tr[..TickStep(sc, 0, i)] == before;
  }

  lemma {:induction false} AnswersPrefix(sc: Scene, a: nat, k: nat, b: nat)
    requires AllLabelled(sc) && a <= k < b <= |sc.samples|
    ensures |Answers(sc, 0, a, b)| > k - a == |Answers(sc, 0, a, k)|
    ensures Answers(sc, 0, a, b)[..k - a] == Answers(sc, 0, a, k)
    ensures Answers(sc, 0, a, b)[k - a] == H.Obs(Answer(sc, k, 0))
  {
    hide Answer;
    if k < b - 1 {
      AnswersPrefix(sc, a, k, b - 1);
      assert Answers(sc, 0, a, b)[..k - a] == Answers(sc, 0, a, b - 1)[..k - a];
    } else {
      AnswersLength(sc, a, k);
    }
  }

  lemma {:induction false} AnswersLength(sc: Scene, a: nat, b: nat)
    requires AllLabelled(sc) && a <= b <= |sc.samples|
    ensures |Answers(sc, 0, a, b)| == b - a
  {
    if a < b {
      AnswersLength(sc, a, b - 1);
    }
  }

  /** Where a sample delivered in iteration `i` stands in the run. */
  lemma StepOf(sc: Scene, cfg: Config, i: nat, k: nat, n: nat) returns (p: nat)
    requires Plain(sc) && i < n && Remembers(sc, cfg, RuleLine(sc, 0, i), NextSample(sc, i))
    requires NextSample(sc, i) <= k < NextSample(sc, i + 1)
    ensures p < |RuleLine(sc, 0, n)| && RuleLine(sc, 0, n)[p] == H.Obs(Answer(sc, k, 0))
    ensures Remembers(sc, cfg, RuleLine(sc, 0, n)[..p], k)
  {
    hide RuleLine, NextSample, Answers, NowAt, Remembers, Answer;
    PlainLine(sc, i);
    TickInLine(sc, 0, i, n);
    var line, a, b := RuleLine(sc, 0, i), NextSample(sc, i), NextSample(sc, i + 1);
    p := |line| + k - a;
    AnswersPrefix(sc, a, k, b);
    RemembersAnswers(sc, cfg, line, a, k);
    var tr, short := RuleLine(sc, 0, n), RuleLine(sc, 0, i + 1);
    assert short[..p] == line + Answers(sc, 0, a, k);
    assert tr[..|short|] == short && tr[..p] == short[..p] && tr[p] == short[p];
  }

  lemma Delivered(sc: Scene, i: nat, k: nat)
    requires Replayable(sc) && Ordered(sc) && k < |sc.samples| && sc.samples[k].at <= NowAt(sc, i)
    ensures k < NextSample(sc, i + 1)
  {
    hide NextSample, NextRestart, NowAt, Skip;
    TimelineUnfolds(sc, i);
  }

  /** The iteration that delivers a sample. */
  lemma {:induction false} DeliveringIteration(sc: Scene, k: nat, n: nat) returns (i: nat)
    requires Plain(sc) && k < NextSample(sc, n)
    ensures i < n && NextSample(sc, i) <= k < NextSample(sc, i + 1)
  {
    hide NextSample;
    TimelineStarts(sc);
    i := n - 1;
    if k < NextSample(sc, i) {
      i := DeliveringIteration(sc, k, i);
    }
  }

  /** The answers from `b` up to `k` are a run that confirms its value. */
  lemma ToldConfirms(sc: Scene, cfg: Config, b: nat, k: nat)
    requires AllLabelled(sc) && b <= k < |sc.samples|
    requires k + 1 - b >= cfg.confirmCount && sc.samples[k].at - sc.samples[b].at >= cfg.confirmWindow
    requires forall j :: b <= j <= k ==> sc.samples[j].labels[0] == sc.samples[k].labels[0]
    requires b > 0 ==> sc.samples[b - 1].labels[0] != sc.samples[k].labels[0]
    ensures H.Confirms(cfg, Told(sc, k + 1))
  {
    var h := Told(sc, k + 1);
    assert forall j :: 0 <= j <= k ==> h[j] == Answer(sc, j, 0);
    assert H.Last(h).value == sc.samples[k].labels[0];
    var i := H.RunStart(h);
    assert b > 0 ==> h[b - 1].value != H.Last(h).value;
    assert i == b;
  }

  lemma {:induction false} NoRestart(sc: Scene, n: nat, j: nat)
    requires Plain(sc) && 0 < j < |RuleLine(sc, 0, n)|
    ensures !RuleLine(sc, 0, n)[j].Restart?
  {
    hide RuleLine, NowAt, NextSample, Answers;
    LineEnds(sc, 0, 0);
    assert n > 0;
    PlainLine(sc, n - 1);
    var line := RuleLine(sc, 0, n - 1);
    LineEnds(sc, 0, n - 1);
    if j < |line| {
      NoRestart(sc, n - 1, j);
    } else if j < |RuleLine(sc, 0, n)| - 1 {
      AnswersAre(sc, 0, NextSample(sc, n - 1), NextSample(sc, n), j - |line|);
    }
  }

  /** Observations of a run are answers of samples, in the samples' order. */
  lemma ObsIsAnswer(sc: Scene, n: nat, p: nat) returns (k: nat)
    requires Plain(sc) && p < |RuleLine(sc, 0, n)| && RuleLine(sc, 0, n)[p].Obs?
    ensures k < |sc.samples| && RuleLine(sc, 0, n)[p] == H.Obs(Answer(sc, k, 0))
    decreases n
  {
    hide RuleLine, NowAt, NextSample, Answers;
    LineEnds(sc, 0, 0);
    assert n > 0;
    TickInLine(sc, 0, n - 1, n);
    var line, tr := RuleLine(sc, 0, n - 1), RuleLine(sc, 0, n);
    if p < |line| {
      assert tr[..|line|][p] == tr[p];
      k := ObsIsAnswer(sc, n - 1, p);
    } else {
      IterationStep(sc, 0, n - 1, p);
      k :| k < |sc.samples| && tr[p] == H.Obs(Answer(sc, k, 0));
    }
  }

  lemma BlindsInPrefix(cfg: Config, tr: seq<H.Event>, n: nat, j: nat)
    requires j < n <= |tr|
    ensures H.BlindsAt(cfg, tr[..n], j) == H.BlindsAt(cfg, tr, j)
  {
    assert tr[..n][..j] == tr[..j];
  }

  lemma ObservationsSee(cfg: Config, tr: seq<H.Event>, j: nat)
    requires j < |tr| && tr[j].Obs?
    ensures !H.BlindsAt(cfg, tr, j)
  {
  }

  lemma InFrameOrder(tr: seq<H.Event>, p: nat, q: nat)
    requires Fresh(tr) && p < |tr| && q < |tr| && tr[p].Obs? && tr[q].Obs?
    ensures p < q <==> tr[p].o.frame < tr[q].o.frame
  {
  }

  /** A confirmation of the target rests on answers given after one that was the opposite. */
  lemma AfterAbsence(cfg: Config, tr: seq<H.Event>, a: nat, p: nat) returns (b: nat)
    requires a < p < |tr| && NoneRefused(tr) && H.ConfirmsAt(cfg, tr, p, cfg.target)
    requires tr[a].Obs? && tr[a].o.value != cfg.target
    ensures a < b <= p && tr[b].Obs? && tr[p].Obs? && tr[p].o.at - tr[b].o.at >= cfg.confirmWindow
  {
    b := Rates.ConfirmingRun(cfg, tr, p, cfg.target);
    hide H.Accepted, H.Evidence, H.Confirms, H.BlindsAt, Rates.AcceptCount;
  }

  lemma ConfirmsHere(sc: Scene, cfg: Config, tr: seq<H.Event>, p: nat, k: nat)
    requires AllLabelled(sc) && k < |sc.samples| && p < |tr| && tr[p] == H.Obs(Answer(sc, k, 0))
    requires H.AcceptsAt(tr, p) && Remembers(sc, cfg, tr[..p], k) && H.Confirms(cfg, Told(sc, k + 1))
    ensures H.ConfirmsAt(cfg, tr, p, sc.samples[k].labels[0])
  {
    assert Told(sc, k) + [Answer(sc, k, 0)] == Told(sc, k + 1);
    hide H.AcceptsAt, H.Confirms;
  }

  lemma TwoLatches(cfg: Config, tr: seq<H.Event>, m: nat, k1: nat, k2: nat)
    requires m <= k1 < k2 < |tr| && Appeared.LatchesAt(cfg, tr, k1) && Appeared.LatchesAt(cfg, tr, k2)
    ensures Latches(cfg, tr[..m]) + 2 <= Latches(cfg, tr)
  {
    hide Latches, Appeared.LatchesAt;
    LatchRaises(cfg, tr, m, k1);
    LatchRaises(cfg, tr, k1 + 1, k2);
    LatchesMonotone(cfg, tr, k2 + 1);
  }

  // ---------------------------------------------------------------- the burst

  /** The samples from `b` to `k` are one of the four confirming runs. */
  predicate RunOfBurst(cfg: Config, b: nat, k: nat) {
    var n: nat := cfg.confirmCount;
    k == b + n && (b == 0 || b == n + 1 || b == 2 * n + 2 || b == 3 * n + 3)
  }

  lemma RunIsUniform(cfg: Config, tick: int, b: nat, k: nat)
    requires LongTick(cfg, tick) && RunOfBurst(cfg, b, k)
    ensures var sc := Burst(cfg, tick);
            && AllLabelled(sc) && k < |sc.samples| && sc.samples[k].labels[0] == ValueAt(cfg, k)
            && H.Confirms(cfg, Told(sc, k + 1))
  {
    ToldConfirms(Burst(cfg, tick), cfg, b, k);
    hide Told, H.Confirms;
  }

  /** The run of the burst up to its third tick, the one of iteration `third`. */
  predicate BurstLine(cfg: Config, tick: int, third: nat, tr: seq<H.Event>) {
    && LongTick(cfg, tick)
    && NowAt(Burst(cfg, tick), third) == 2 * tick
    && tr == RuleLine(Burst(cfg, tick), 0, third + 1)
  }

  /** Until the third tick everything is remembered, and no tick before it loses sight. */
  lemma {:induction false} BurstRemembers(cfg: Config, tick: int, third: nat, i: nat)
    requires LongTick(cfg, tick) && NowAt(Burst(cfg, tick), third) == 2 * tick && i <= third
    ensures Plain(Burst(cfg, tick))
    ensures Remembers(Burst(cfg, tick), cfg, RuleLine(Burst(cfg, tick), 0, i), NextSample(Burst(cfg, tick), i))
    ensures i > 0 ==> !H.BlindsAt(cfg, RuleLine(Burst(cfg, tick), 0, i), TickStep(Burst(cfg, tick), 0, i - 1))
  {
    hide RuleLine, NextSample, NowAt, H.BlindsAt;
    var sc := Burst(cfg, tick);
    BurstRuns(cfg, tick);
    LineEnds(sc, 0, 0);
    TimelineStarts(sc);
    if i > 0 {
      BurstRemembers(cfg, tick, third, i - 1);
      NowOrder(sc, i - 1, third);
      if i > 1 {
        NowOrder(sc, 0, i - 1);
      }
      Delivered(sc, i - 1, 0);
      hide Remembers;
      RemembersIteration(sc, cfg, i - 1);
    }
  }

  lemma BurstStep(cfg: Config, tick: int, third: nat, tr: seq<H.Event>, k: nat) returns (p: nat)
    requires BurstLine(cfg, tick, third, tr) && k < |Burst(cfg, tick).samples|
    ensures Plain(Burst(cfg, tick)) && p < |tr| && tr[p] == H.Obs(Answer(Burst(cfg, tick), k, 0))
    ensures Remembers(Burst(cfg, tick), cfg, tr[..p], k)
  {
    var sc := Burst(cfg, tick);
    hide Burst, RuleLine, NextSample, NowAt, Remembers, Answer, Ordered;
    BurstAnswers(cfg, tick, k);
    Delivered(sc, third, k);
    var i := DeliveringIteration(sc, k, third + 1);
    BurstRemembers(cfg, tick, third, i);
    p := StepOf(sc, cfg, i, k, third + 1);
  }

  /** The last sample of a confirming run confirms its value. */
  lemma BurstConfirms(cfg: Config, tick: int, third: nat, tr: seq<H.Event>, b: nat, k: nat) returns (p: nat)
    requires BurstLine(cfg, tick, third, tr) && RunOfBurst(cfg, b, k)
    ensures k < |Burst(cfg, tick).samples| && p < |tr| && tr[p] == H.Obs(Answer(Burst(cfg, tick), k, 0))
    ensures H.ConfirmsAt(cfg, tr, p, ValueAt(cfg, k))
  {
    var sc := Burst(cfg, tick);
    RunIsUniform(cfg, tick, b, k);
    p := BurstStep(cfg, tick, third, tr, k);
    BurstRuns(cfg, tick);
    hide Burst, RuleLine, NowAt, H.Confirms, H.ConfirmsAt, H.AcceptsAt, Remembers, Told, Answer, Ordered;
    NoneRefusedInLine(sc, 0, third);
    ConfirmsHere(sc, cfg, tr, p, k);
  }

  /** Sight is not lost after the burst begins, up to its last tick. */
  lemma BurstInSight(cfg: Config, tick: int, third: nat, tr: seq<H.Event>, j: nat)
    requires BurstLine(cfg, tick, third, tr) && 0 < j < |tr| - 1
    ensures !H.BlindsAt(cfg, tr, j)
  {
    var sc := Burst(cfg, tick);
    hide Burst, RuleLine, NowAt, NextSample, Remembers, H.BlindsAt, LongTick, Plain;
    BurstRemembers(cfg, tick, third, 0);
    NoRestart(sc, third + 1, j);
    if tr[j].TickAt? {
      var i := TickOnGrid(sc, 0, third + 1, j);
      TickInLine(sc, 0, i, third + 1);
      BurstRemembers(cfg, tick, third, i + 1);
      BlindsInPrefix(cfg, tr, j + 1, j);
    } else {
      ObservationsSee(cfg, tr, j);
    }
  }

  /** The order of frames is the order of the run. */
  lemma BurstOrder(cfg: Config, tick: int, third: nat, tr: seq<H.Event>, p: nat, q: nat)
    requires BurstLine(cfg, tick, third, tr)
    requires p < |tr| && q < |tr| && tr[p].Obs? && tr[q].Obs?
    ensures p < q <==> tr[p].o.frame < tr[q].o.frame
  {
    BurstRuns(cfg, tick);
    hide Burst, RuleLine, NowAt, Rates.CapturedAfterTicks, Rates.Cadenced, Ordered, LongTick, Accepted;
    RuleLinePaced(Burst(cfg, tick), 0, third);
    InFrameOrder(tr, p, q);
  }

  /** A presence confirmed after the first absence is confirmed after the second tick. */
  lemma LateEnough(cfg: Config, tick: int, third: nat, tr: seq<H.Event>, a: nat, p: nat)
    requires BurstLine(cfg, tick, third, tr) && a < p < |tr|
    requires tr[a] == H.Obs(Answer(Burst(cfg, tick), cfg.confirmCount, 0)) && H.ConfirmsAt(cfg, tr, p, cfg.target)
    ensures p >= |RuleLine(Burst(cfg, tick), 0, third)|
  {
    var sc := Burst(cfg, tick);
    BurstRuns(cfg, tick);
    BurstAnswers(cfg, tick, cfg.confirmCount);
    hide Burst, RuleLine, NowAt, H.ConfirmsAt, Answer, LongTick, Ordered, Accepted, NoneRefused;
    NoneRefusedInLine(sc, 0, third);
    var b := AfterAbsence(cfg, tr, a, p);
    var k := ObsIsAnswer(sc, third + 1, b);
    BurstAnswers(cfg, tick, k);
    BurstOrder(cfg, tick, third, tr, a, b);
    AfterSecondTick(sc, third, tr, tick, p);
  }

  lemma AfterSecondTick(sc: Scene, third: nat, tr: seq<H.Event>, tick: int, p: nat)
    requires Replayable(sc) && Ordered(sc) && sc.tick == tick && tr == RuleLine(sc, 0, third + 1)
    requires third > 0 && NowAt(sc, third) == 2 * tick && p < |tr| && tr[p].Obs? && tr[p].o.at > tick
    ensures p >= |RuleLine(sc, 0, third)|
  {
    hide RuleLine, NowAt, Ordered;
    NowOrder(sc, third - 1, third);
    TickInLine(sc, 0, third - 1, third + 1);
    TickAfter(sc, 0, third + 1, p, third - 1);
  }

  /** What the answers of the burst are: absence first, nothing about a presence until shortly
      before the second tick, and nothing after the third. */
  lemma BurstAnswers(cfg: Config, tick: int, k: nat)
    requires LongTick(cfg, tick) && k < |Burst(cfg, tick).samples|
    ensures var sc, n: nat := Burst(cfg, tick), cfg.confirmCount;
            && Plain(sc) && sc.samples[k].at <= 2 * tick && Answer(sc, k, 0).frame == k + 1
            && (k == n ==> Answer(sc, k, 0).value != cfg.target)
            && (k > n ==> Answer(sc, k, 0).at > tick - cfg.confirmWindow)
  {
    BurstRuns(cfg, tick);
  }

  /** Between a confirmed absence and a confirmed presence of the burst an appearance is
      latched. */
  lemma BurstLatch(cfg: Config, tick: int, third: nat, tr: seq<H.Event>, a: nat, b: nat) returns (k: nat)
    requires BurstLine(cfg, tick, third, tr) && a < b < |tr| - 1
    requires H.ConfirmsAt(cfg, tr, a, OppositeOf(cfg.target)) && H.ConfirmsAt(cfg, tr, b, cfg.target)
    ensures a < k <= b && Appeared.LatchesAt(cfg, tr, k) && H.ConfirmsAt(cfg, tr, k, cfg.target)
  {
    hide Burst, RuleLine, NowAt, H.BlindsAt, H.ConfirmsAt, Appeared.LatchesAt;
    forall j | a < j < b ensures !H.BlindsAt(cfg, tr, j) {
      BurstInSight(cfg, tick, third, tr, j);
    }
    k := Appeared.LatchBetween(cfg, tr, a, b);
    Appeared.LatchIff(cfg, tr, k);
  }

  /** Where the last samples of two confirming runs, an absence and the presence after it,
      stand in the run. */
  lemma BurstPair(cfg: Config, tick: int, third: nat, tr: seq<H.Event>, b: nat, k: nat) returns (p: nat, q: nat)
    requires BurstLine(cfg, tick, third, tr)
    requires RunOfBurst(cfg, b, k) && (b == 0 || b == 2 * (cfg.confirmCount as nat) + 2)
    ensures p < q < |tr| - 1 && tr[p].Obs? && tr[q].Obs?
    ensures tr[p].o.frame == k + 1 && tr[q].o.frame == k + cfg.confirmCount + 2
    ensures k < |Burst(cfg, tick).samples| && tr[p] == H.Obs(Answer(Burst(cfg, tick), k, 0))
    ensures H.ConfirmsAt(cfg, tr, p, OppositeOf(cfg.target)) && H.ConfirmsAt(cfg, tr, q, cfg.target)
  {
    var sc := Burst(cfg, tick);
    hide Burst, RuleLine, H.ConfirmsAt, NowAt;
    p := BurstConfirms(cfg, tick, third, tr, b, k);
    q := BurstConfirms(cfg, tick, third, tr, k + 1, k + 1 + cfg.confirmCount);
    BurstOrder(cfg, tick, third, tr, p, q);
    TickInLine(sc, 0, third, third + 1);
  }

  lemma BurstLatches(cfg: Config, tick: int, third: nat, tr: seq<H.Event>) returns (k1: nat, k2: nat)
    requires BurstLine(cfg, tick, third, tr)
    ensures |RuleLine(Burst(cfg, tick), 0, third)| <= k1 < k2 < |tr|
    ensures Appeared.LatchesAt(cfg, tr, k1) && Appeared.LatchesAt(cfg, tr, k2)
  {
    var n := cfg.confirmCount as nat;
    hide BurstLine, Burst, RuleLine, H.ConfirmsAt, Appeared.LatchesAt, Answer;
    var a1, b1 := BurstPair(cfg, tick, third, tr, 0, n);
    var a2, b2 := BurstPair(cfg, tick, third, tr, 2 * n + 2, 3 * n + 2);
    BurstOrder(cfg, tick, third, tr, b1, a2);
    k1 := BurstLatch(cfg, tick, third, tr, a1, b1);
    k2 := BurstLatch(cfg, tick, third, tr, a2, b2);
    LateEnough(cfg, tick, third, tr, a1, k1);
  }

  /** In the burst the third tick finds two appearances latched since the second. */
  lemma BurstLatchesTwice(cfg: Config, tick: int, third: nat)
    requires LongTick(cfg, tick) && NowAt(Burst(cfg, tick), third) == 2 * tick
    ensures LatchesTwice(Burst(cfg, tick), 0, third)
  {
    var sc := Burst(cfg, tick);
    hide Burst, RuleLine, NowAt, Latches, Appeared.LatchesAt, LongTick;
    var tr := RuleLine(sc, 0, third + 1);
    var k1, k2 := BurstLatches(cfg, tick, third, tr);
    TickInLine(sc, 0, third, third + 1);
    TwoLatches(cfg, tr, |RuleLine(sc, 0, third)|, k1, k2);
  }

  /** For one rule and one tick: every latched appearance of every replay has a detection of
      its own if and only if the tick is no longer than two confirmation windows. */
  lemma ReportPerLatchExactly(cfg: Config, tick: int)
    requires Usable(cfg) && cfg.kind.Appeared? && IdFits(cfg.id) && 0 < tick <= cfg.maxGap
    ensures tick <= 2 * cfg.confirmWindow <==>
            forall sc, rule: nat, n: nat :: Replays(sc, rule, cfg, tick) ==> EachReported(sc, rule, n)
  {
    if tick <= 2 * cfg.confirmWindow {
      forall sc, rule: nat, n: nat | Replays(sc, rule, cfg, tick) ensures EachReported(sc, rule, n) {
        ReportPerLatch(sc, rule, n);
      }
    } else {
      var sc := Burst(cfg, tick);
      BurstRuns(cfg, tick);
      assert Replays(sc, 0, cfg, tick);
      BurstLatchesTwice(cfg, tick, 2);
      hide LatchesTwice, EachReported;
      EachReportedExactly(sc, 0, 3);
      assert !EachReported(sc, 0, 3);
    }
  }

  /** For one rule and one tick: further ticks never add a report to any replay if and only if
      the tick is no longer than two confirmation windows. */
  lemma FurtherTicksInReplays(cfg: Config, tick: int)
    requires Usable(cfg) && cfg.kind.Appeared? && IdFits(cfg.id) && 0 < tick <= cfg.maxGap
    ensures tick <= 2 * cfg.confirmWindow <==>
            forall sc, rule: nat, n: nat :: Replays(sc, rule, cfg, tick) ==> ReportsAllItCan(sc, rule, n)
  {
    hide EachReported, ReportsAllItCan, Usable;
    ReportPerLatchExactly(cfg, tick);
    forall sc, rule: nat, n: nat | Replays(sc, rule, cfg, tick)
      ensures ReportsAllItCan(sc, rule, n) <==> EachReported(sc, rule, n)
    {
      ReportsAllExactly(sc, rule, n);
    }
  }

  /** A scene that can be replayed at this tick, and in which this is one of the rules. */
  predicate Replays(sc: Scene, rule: nat, cfg: Config, tick: int) {
    && Replayable(sc) && Ordered(sc) && Accepted(sc)
    && rule < |sc.rules| && sc.rules[rule] == cfg && sc.tick == tick
  }
}
