/**
 What one rule of a replayed scene lives through, and what follows for its detections.

 `RuleLine` is the rule's own run, built from the labels of that rule alone.  It is
 paced the way the theorems of module `Rates` ask, because samples are in time order
 and are delivered on a fixed cadence.
 */
module ReplayRuns {
  import opened Machine
  import opened Watching
  import opened Scenes
  import H = History
  import Rates
  import LosingSight

  /** The answers of samples `a` up to `b` for one rule. */
  function Answers(sc: Scene, rule: nat, a: nat, b: nat): seq<H.Event>
    requires a <= b <= |sc.samples|
  {
    if a == b then []
    else if rule in sc.samples[b - 1].labels then Answers(sc, rule, a, b - 1) + [H.Obs(Answer(sc, b - 1, rule))]
    else Answers(sc, rule, a, b - 1)
  }

  function Reboots(n: nat): seq<H.Event> {
    if n == 0 then [] else Reboots(n - 1) + [H.Restart]
  }

  /** The run of one rule over the first `i` iterations of a replay. */
  function RuleLine(sc: Scene, rule: nat, i: nat): seq<H.Event>
    requires sc.samples != []
    decreases i, 0
  {
    if i == 0 then [H.Restart]
    else RuleBeforeTick(sc, rule, i - 1) + [H.TickAt(NowAt(sc, i - 1))]
  }

  function RuleBeforeTick(sc: Scene, rule: nat, i: nat): seq<H.Event>
    requires sc.samples != []
    decreases i, 1
  {
    RuleLine(sc, rule, i) + Reboots(NextRestart(sc, i + 1) - NextRestart(sc, i))
      + Answers(sc, rule, NextSample(sc, i), NextSample(sc, i + 1))
  }

  // ---------------------------------------------------------------- projection

  lemma {:induction false} ProjectConcat(a: seq<WatchEvent>, b: seq<WatchEvent>, rule: nat)
    ensures Project(a + b, rule) == Project(a, rule) + Project(b, rule)
  {
    hide EventFor;
    if b == [] {
      assert a + b == a;
    } else {
      assert a + b == (a + H.Pre(b)) + [H.Last(b)] && H.Pre(a + b) == a + H.Pre(b);
      ProjectConcat(a, H.Pre(b), rule);
    }
  }

  function SampleAnswer(sc: Scene, rule: nat, k: nat): seq<H.Event>
    requires k < |sc.samples|
  {
    if rule in sc.samples[k].labels then [H.Obs(Answer(sc, k, rule))] else []
  }

  lemma {:induction false} ProjectSample(sc: Scene, k: nat, n: nat, rule: nat)
    requires k < |sc.samples|
    ensures Project(SampleEvents(sc, k, n), rule) == if rule < n then SampleAnswer(sc, rule, k) else []
  {
    hide Answer;
    if n > 0 {
      ProjectSample(sc, k, n - 1, rule);
      var e := SampleEvents(sc, k, n - 1);
      if n - 1 in sc.samples[k].labels {
        hide SampleEvents, Project;
        ProjectAppends(e, ObsOf(n - 1, Answer(sc, k, n - 1)), rule);
      }
    }
  }

  lemma SamplesUnfold(sc: Scene, rule: nat, a: nat, b: nat)
    requires a < b <= |sc.samples|
    ensures SamplesEvents(sc, a, b) == SamplesEvents(sc, a, b - 1) + SampleEvents(sc, b - 1, |sc.rules|)
    ensures Answers(sc, rule, a, b) == Answers(sc, rule, a, b - 1) + SampleAnswer(sc, rule, b - 1)
  {
    hide SampleEvents, Answer;
  }

  lemma {:induction false} ProjectSamples(sc: Scene, a: nat, b: nat, rule: nat)
    requires a <= b <= |sc.samples| && rule < |sc.rules|
    ensures Project(SamplesEvents(sc, a, b), rule) == Answers(sc, rule, a, b)
  {
    hide SampleEvents, SampleAnswer, EventFor, Answer;
    if a == b {
      assert SamplesEvents(sc, a, b) == [] && Answers(sc, rule, a, b) == [];
    } else {
      hide Answers, Project, SamplesEvents;
      ProjectSamples(sc, a, b - 1, rule);
      SamplesUnfold(sc, rule, a, b);
      ProjectSample(sc, b - 1, |sc.rules|, rule);
      var before, sample := SamplesEvents(sc, a, b - 1), SampleEvents(sc, b - 1, |sc.rules|);
      ProjectConcat(before, sample, rule);
    }
  }

  lemma {:induction false} ProjectRestarts(n: nat, rule: nat)
    ensures Project(Restarts(n), rule) == Reboots(n)
  {
    if n > 0 {
      ProjectRestarts(n - 1, rule);
      ProjectAppends(Restarts(n - 1), RestartAll, rule);
    }
  }

  /** The part of a replay that concerns one rule is the rule's own run. */
  lemma {:induction false} ProjectTimeline(sc: Scene, rule: nat, i: nat)
    requires sc.samples != [] && rule < |sc.rules|
    ensures Project(Timeline(sc, i), rule) == RuleLine(sc, rule, i)
    ensures Project(BeforeTick(sc, i), rule) == RuleBeforeTick(sc, rule, i)
  {
    hide BeforeTick, RuleBeforeTick, NowAt;
    if i == 0 {
      assert Timeline(sc, 0) == [] + [RestartAll];
      ProjectAppends([], RestartAll, rule);
    } else {
      ProjectTimeline(sc, rule, i - 1);
      ProjectAppends(BeforeTick(sc, i - 1), TickAll(NowAt(sc, i - 1)), rule);
    }
    ProjectIteration(sc, rule, i);
  }

  lemma ProjectIteration(sc: Scene, rule: nat, i: nat)
    requires sc.samples != [] && rule < |sc.rules| && Project(Timeline(sc, i), rule) == RuleLine(sc, rule, i)
    ensures Project(BeforeTick(sc, i), rule) == RuleBeforeTick(sc, rule, i)
  {
    hide Timeline, AfterRestarts, BeforeTick, RuleLine, Answers, Reboots;
    hide Restarts, SamplesEvents, Project, NextSample, NextRestart, Skip;
    TimelineUnfolds(sc, i);
    var a, b := NextSample(sc, i), NextSample(sc, i + 1);
    var n := NextRestart(sc, i + 1) - NextRestart(sc, i);
    ProjectConcat(AfterRestarts(sc, i), SamplesEvents(sc, a, b), rule);
    ProjectConcat(Timeline(sc, i), Restarts(n), rule);
    ProjectRestarts(n, rule);
    ProjectSamples(sc, a, b, rule);
  }

  // ---------------------------------------------------------------- pacing

  /** The run is one that the results on rates and gaps, and on lost sight, speak of. */
  predicate Paced(tr: seq<H.Event>, period: int) {
    LosingSight.Fresh(tr) && Rates.CapturedAfterTicks(tr) && Rates.Cadenced(tr, period)
  }

  /** No observation of `tr` has a later frame than `f` or a later time than `m`. */
  predicate Within(tr: seq<H.Event>, f: nat, m: int) {
    forall i :: 0 <= i < |tr| && tr[i].Obs? ==> tr[i].o.frame <= f && tr[i].o.at <= m
  }

  /** Step `j` is a tick at `u`, the latest of `tr`; what was observed after it is later. */
  predicate TickedLast(tr: seq<H.Event>, j: nat, u: int) {
    && j < |tr| && tr[j] == H.TickAt(u)
    && (forall i :: 0 <= i < |tr| && tr[i].TickAt? ==> tr[i].now <= u)
    && (forall i :: j < i < |tr| && tr[i].Obs? ==> u < tr[i].o.at)
  }

  /** `tr` has not been ticked, and everything observed was at one moment. */
  predicate NotTicked(tr: seq<H.Event>, t: int) {
    forall i :: 0 <= i < |tr| ==> !tr[i].TickAt? && (tr[i].Obs? ==> tr[i].o.at == t)
  }

  lemma PacedTick(tr: seq<H.Event>, period: int, e: H.Event)
    requires Paced(tr, period) && !e.Obs?
    ensures Paced(tr + [e], period)
  {
    CadenceKept(tr, period, e);
  }

  lemma CadenceKept(tr: seq<H.Event>, period: int, e: H.Event)
    requires Rates.Cadenced(tr, period)
    ensures forall p, q :: 0 <= p < q < |tr| && tr[p].Obs? && tr[q].Obs? ==> Rates.TickBetween(tr + [e], period, p, q)
  {
    var tr' := tr + [e];
    forall p, q | 0 <= p < q < |tr| && tr[p].Obs? && tr[q].Obs? ensures Rates.TickBetween(tr', period, p, q) {
      assert Rates.TickBetween(tr, period, p, q);
      if tr[q].o.at - tr[p].o.at > period {
        var j :| p < j < q && tr[j].TickAt? && tr[q].o.at - tr[j].now <= period;
        assert tr'[j].TickAt?;
      }
    }
  }

  lemma PacedObservation(tr: seq<H.Event>, period: int, f: nat, m: int, j: nat, u: int, o: Observation)
    requires Paced(tr, period) && Within(tr, f, m) && TickedLast(tr, j, u)
    requires f < o.frame && m <= o.at && u < o.at <= u + period
    ensures Paced(tr + [H.Obs(o)], period) && Within(tr + [H.Obs(o)], o.frame, o.at)
            && TickedLast(tr + [H.Obs(o)], j, u)
  {
    var tr' := tr + [H.Obs(o)];
    CadenceKept(tr, period, H.Obs(o));
    forall p | 0 <= p < |tr| && tr[p].Obs? ensures Rates.TickBetween(tr', period, p, |tr|) {
      assert p != j && tr'[p] == tr[p] && tr'[j] == tr[j];
    }
  }

  lemma PacedFirst(tr: seq<H.Event>, period: int, f: nat, o: Observation)
    requires Paced(tr, period) && Within(tr, f, o.at) && NotTicked(tr, o.at) && period >= 0
    requires f < o.frame
    ensures Paced(tr + [H.Obs(o)], period) && Within(tr + [H.Obs(o)], o.frame, o.at) && NotTicked(tr + [H.Obs(o)], o.at)
  {
    CadenceKept(tr, period, H.Obs(o));
  }

  lemma {:induction false} PacedReboots(tr: seq<H.Event>, period: int, n: nat)
    requires Paced(tr, period)
    ensures Paced(tr + Reboots(n), period)
    ensures forall f, m :: Within(tr, f, m) ==> Within(tr + Reboots(n), f, m)
    ensures forall j, u :: TickedLast(tr, j, u) ==> TickedLast(tr + Reboots(n), j, u)
    ensures forall t :: NotTicked(tr, t) ==> NotTicked(tr + Reboots(n), t)
  {
    if n == 0 {
      assert tr + Reboots(0) == tr;
    } else {
      var p := tr + Reboots(n - 1);
      PacedReboots(tr, period, n - 1);
      assert tr + Reboots(n) == p + [H.Restart];
      PacedTick(p, period, H.Restart);
    }
  }

  /** The samples from `a` up to `b` come after the tick at `u` and within a period of it. */
  lemma {:induction false} PacedAnswers(sc: Scene, rule: nat, tr: seq<H.Event>, a: nat, b: nat, m: int, j: nat, u: int)
    requires Ordered(sc) && a <= b <= |sc.samples|
    requires Paced(tr, sc.tick) && Within(tr, a, m) && TickedLast(tr, j, u)
    requires forall k :: a <= k < b ==> m <= sc.samples[k].at && u < sc.samples[k].at <= u + sc.tick
    ensures var t := tr + Answers(sc, rule, a, b);
            && Paced(t, sc.tick) && TickedLast(t, j, u)
            && Within(t, b, if a == b then m else sc.samples[b - 1].at)
  {
    if a == b {
      assert tr + Answers(sc, rule, a, b) == tr;
    } else {
      PacedAnswers(sc, rule, tr, a, b - 1, m, j, u);
      var p, m' := tr + Answers(sc, rule, a, b - 1), if a == b - 1 then m else sc.samples[b - 2].at;
      if rule in sc.samples[b - 1].labels {
        var o := Answer(sc, b - 1, rule);
        assert tr + Answers(sc, rule, a, b) == p + [H.Obs(o)];
        PacedObservation(p, sc.tick, b - 1, m', j, u, o);
      }
    }
  }

  /** The samples delivered first are all of the scene's first moment. */
  lemma {:induction false} PacedStart(sc: Scene, rule: nat, tr: seq<H.Event>, b: nat, t: int)
    requires b <= |sc.samples| && sc.tick > 0
    requires Paced(tr, sc.tick) && Within(tr, 0, t) && NotTicked(tr, t)
    requires forall k :: 0 <= k < b ==> sc.samples[k].at == t
    ensures var s := tr + Answers(sc, rule, 0, b);
            Paced(s, sc.tick) && NotTicked(s, t) && Within(s, b, t)
  {
    if b == 0 {
      assert tr + Answers(sc, rule, 0, 0) == tr;
    } else {
      PacedStart(sc, rule, tr, b - 1, t);
      var p := tr + Answers(sc, rule, 0, b - 1);
      if rule in sc.samples[b - 1].labels {
        var o := Answer(sc, b - 1, rule);
        assert tr + Answers(sc, rule, 0, b) == p + [H.Obs(o)];
        PacedFirst(p, sc.tick, b - 1, o);
      }
    }
  }

  /** What an iteration leaves behind: everything up to `NextSample` has been delivered,
      all of it by now, and the last thing was a tick at `NowAt`. */
  predicate AfterTick(sc: Scene, tr: seq<H.Event>, i: nat)
    requires sc.samples != []
  {
    && Paced(tr, sc.tick)
    && Within(tr, NextSample(sc, i + 1), NowAt(sc, i))
    && tr != [] && TickedLast(tr, |tr| - 1, NowAt(sc, i))
  }

  lemma TickedAfter(tr: seq<H.Event>, period: int, f: nat, m: int, u: int)
    requires Paced(tr, period) && Within(tr, f, m) && m <= u
    requires forall i :: 0 <= i < |tr| && tr[i].TickAt? ==> tr[i].now <= u
    ensures var t := tr + [H.TickAt(u)];
            Paced(t, period) && Within(t, f, u) && TickedLast(t, |t| - 1, u)
  {
    PacedTick(tr, period, H.TickAt(u));
  }

  lemma RuleLineUnfolds(sc: Scene, rule: nat, i: nat)
    requires sc.samples != []
    ensures RuleLine(sc, rule, i + 1) ==
            RuleLine(sc, rule, i) + Reboots(NextRestart(sc, i + 1) - NextRestart(sc, i))
              + Answers(sc, rule, NextSample(sc, i), NextSample(sc, i + 1)) + [H.TickAt(NowAt(sc, i))]
  {
  }

  lemma RuleLinePacedFirst(sc: Scene, rule: nat)
    requires Replayable(sc) && Ordered(sc)
    ensures AfterTick(sc, RuleLine(sc, rule, 1), 0)
  {
    hide Skip, NextSample, NextRestart, NowAt, Answers, Reboots, Paced;
    var tr, now := RuleLine(sc, rule, 0), NowAt(sc, 0);
    var n, b := NextRestart(sc, 1) - NextRestart(sc, 0), NextSample(sc, 1);
    TimelineStarts(sc);
    TimelineUnfolds(sc, 0);
    RuleLineUnfolds(sc, rule, 0);
    PacedBeginning(sc.tick);
    PacedReboots(tr, sc.tick, n);
    assert Within(tr, 0, now) && NotTicked(tr, now);
    DueFirst(sc, b);
    PacedStart(sc, rule, tr + Reboots(n), b, now);
    TickedAfter(tr + Reboots(n) + Answers(sc, rule, 0, b), sc.tick, b, now, now);
  }

  lemma PacedBeginning(period: int)
    ensures Paced([H.Restart], period)
  {
  }

  lemma RuleLinePacedNext(sc: Scene, rule: nat, i: nat)
    requires Replayable(sc) && Ordered(sc) && i > 0 && AfterTick(sc, RuleLine(sc, rule, i), i - 1)
    ensures AfterTick(sc, RuleLine(sc, rule, i + 1), i)
  {
    hide Skip, NextSample, NextRestart, NowAt, Answers, Reboots, Paced, RuleLine;
    var tr, u, now := RuleLine(sc, rule, i), NowAt(sc, i - 1), NowAt(sc, i);
    var n, a, b := NextRestart(sc, i + 1) - NextRestart(sc, i), NextSample(sc, i), NextSample(sc, i + 1);
    TimelineUnfolds(sc, i - 1);
    TimelineUnfolds(sc, i);
    RuleLineUnfolds(sc, rule, i);
    PacedReboots(tr, sc.tick, n);
    DueNext(sc, i);
    PacedAnswers(sc, rule, tr + Reboots(n), a, b, u, |tr| - 1, u);
    TickedAfter(tr + Reboots(n) + Answers(sc, rule, a, b), sc.tick, b, if a == b then u else sc.samples[b - 1].at, now);
  }

  lemma {:induction false} RuleLinePaced(sc: Scene, rule: nat, i: nat)
    requires Replayable(sc) && Ordered(sc)
    ensures AfterTick(sc, RuleLine(sc, rule, i + 1), i)
  {
    hide AfterTick;
    if i == 0 {
      RuleLinePacedFirst(sc, rule);
    } else {
      RuleLinePaced(sc, rule, i - 1);
      RuleLinePacedNext(sc, rule, i);
    }
  }

  lemma DueFirst(sc: Scene, b: nat)
    requires Replayable(sc) && Ordered(sc) && b == NextSample(sc, 1)
    ensures forall k :: 0 <= k < b ==> sc.samples[k].at == NowAt(sc, 0)
  {
    hide Skip, NextRestart, Timeline, AfterRestarts, BeforeTick, NowAt;
    TimelineStarts(sc);
    TimelineUnfolds(sc, 0);
    forall k | 0 <= k < b ensures sc.samples[k].at == NowAt(sc, 0) {
      assert Times(sc)[k] <= NowAt(sc, 0);
      assert k == 0 || sc.samples[0].at <= sc.samples[k].at;
    }
  }

  /** What iteration `i` delivers was captured after the tick before it, by now. */
  lemma DueNext(sc: Scene, i: nat)
    requires Replayable(sc) && Ordered(sc) && i > 0
    ensures forall k :: NextSample(sc, i) <= k < NextSample(sc, i + 1) ==>
              NowAt(sc, i - 1) < sc.samples[k].at <= NowAt(sc, i - 1) + sc.tick
  {
    hide Skip, NextSample, NextRestart, Timeline, AfterRestarts, BeforeTick, NowAt;
    TimelineUnfolds(sc, i - 1);
    TimelineUnfolds(sc, i);
    var a, b := NextSample(sc, i), NextSample(sc, i + 1);
    forall k | a <= k < b ensures NowAt(sc, i - 1) < sc.samples[k].at <= NowAt(sc, i - 1) + sc.tick {
      assert NowAt(sc, i - 1) < Times(sc)[a];
      assert Times(sc)[k] <= NowAt(sc, i);
      assert k == a || sc.samples[a].at <= sc.samples[k].at;
    }
  }

  // ---------------------------------------------------------------- places in a run

  /** A later iteration only adds to the run. */
  lemma {:induction false} LineExtends(sc: Scene, rule: nat, i: nat, j: nat)
    requires sc.samples != [] && i <= j
    ensures var a, b := RuleLine(sc, rule, i), RuleLine(sc, rule, j);
            && |a| <= |b| && a == b[..|a|]
            && (i < j ==> |a| < |b|)
  {
    hide RuleLine;
    if i < j {
      LineExtends(sc, rule, i, j - 1);
      RuleLineUnfolds(sc, rule, j - 1);
    }
  }

  /** Where the tick of iteration `i` stands in the run. */
  function TickStep(sc: Scene, rule: nat, i: nat): (k: nat)
    requires sc.samples != []
    ensures k + 1 == |RuleLine(sc, rule, i + 1)| && RuleLine(sc, rule, i + 1)[k] == H.TickAt(NowAt(sc, i))
  {
    |RuleLine(sc, rule, i + 1)| - 1
  }

  /** The run up to the tick of an iteration is the same in every longer run. */
  lemma TickInLine(sc: Scene, rule: nat, i: nat, n: nat)
    requires sc.samples != [] && i < n
    ensures var tr, k := RuleLine(sc, rule, n), TickStep(sc, rule, i);
            && |RuleLine(sc, rule, i)| <= k < |tr| && tr[k] == H.TickAt(NowAt(sc, i))
            && tr[..k + 1] == RuleLine(sc, rule, i + 1)
            && tr[..|RuleLine(sc, rule, i)|] == RuleLine(sc, rule, i)
  {
    hide RuleLine, NowAt;
    LineExtends(sc, rule, i, i + 1);
    LineExtends(sc, rule, i + 1, n);
    var k, tr := TickStep(sc, rule, i), RuleLine(sc, rule, n);
    assert tr[..k + 1][k] == tr[k];
    assert tr[..|RuleLine(sc, rule, i)|] == tr[..k + 1][..|RuleLine(sc, rule, i)|];
  }

  lemma {:induction false} AnswersAre(sc: Scene, rule: nat, a: nat, b: nat, p: nat)
    requires a <= b <= |sc.samples| && p < |Answers(sc, rule, a, b)|
    ensures exists k :: && a <= k < b && rule in sc.samples[k].labels
                        && Answers(sc, rule, a, b)[p] == H.Obs(Answer(sc, k, rule))
  {
    if p < |Answers(sc, rule, a, b - 1)| {
      AnswersAre(sc, rule, a, b - 1, p);
    } else {
      assert rule in sc.samples[b - 1].labels;
    }
  }

  lemma {:induction false} RebootsAre(n: nat)
    ensures forall p :: 0 <= p < |Reboots(n)| ==> Reboots(n)[p] == H.Restart
  {
    if n > 0 {
      RebootsAre(n - 1);
    }
  }

  /** What iteration `i` adds to a run: restarts, what the samples that have come due
      answer, and its tick. */
  lemma IterationStep(sc: Scene, rule: nat, i: nat, p: nat)
    requires sc.samples != [] && |RuleLine(sc, rule, i)| <= p < |RuleLine(sc, rule, i + 1)|
    ensures var e := RuleLine(sc, rule, i + 1)[p];
            || (p == TickStep(sc, rule, i) && e == H.TickAt(NowAt(sc, i)))
            || e == H.Restart
            || exists k :: NextSample(sc, i) <= k < NextSample(sc, i + 1) && rule in sc.samples[k].labels
                 && e == H.Obs(Answer(sc, k, rule))
  {
    hide RuleLine, Answers, Reboots, NextSample, NextRestart, NowAt;
    RuleLineUnfolds(sc, rule, i);
    TimelineUnfolds(sc, i);
    var tr, n := RuleLine(sc, rule, i), NextRestart(sc, i + 1) - NextRestart(sc, i);
    var a, b := NextSample(sc, i), NextSample(sc, i + 1);
    RebootsAre(n);
    if |tr| + |Reboots(n)| <= p < TickStep(sc, rule, i) {
      AnswersAre(sc, rule, a, b, p - |tr| - |Reboots(n)|);
    }
  }

  /** Within an iteration restarts come first: a sample that is due with a restart reaches the
      new process. */
  lemma RestartsComeFirst(sc: Scene, rule: nat, i: nat, p: nat, q: nat)
    requires sc.samples != [] && |RuleLine(sc, rule, i)| <= p < q < |RuleLine(sc, rule, i + 1)|
    requires RuleLine(sc, rule, i + 1)[q].Restart?
    ensures RuleLine(sc, rule, i + 1)[p].Restart?
  {
    hide RuleLine, Answers, Reboots, NextSample, NextRestart, NowAt;
    RuleLineUnfolds(sc, rule, i);
    TimelineUnfolds(sc, i);
    var tr, n := RuleLine(sc, rule, i), NextRestart(sc, i + 1) - NextRestart(sc, i);
    RebootsAre(n);
    if q >= |tr| + |Reboots(n)| {
      AnswersAre(sc, rule, NextSample(sc, i), NextSample(sc, i + 1), q - |tr| - |Reboots(n)|);
    }
  }

  /** A run begins with a restart, and every iteration ends with a tick. */
  lemma LineEnds(sc: Scene, rule: nat, i: nat)
    requires sc.samples != []
    ensures RuleLine(sc, rule, i) != [] && RuleLine(sc, rule, 0) == [H.Restart]
    ensures i > 0 ==> H.Last(RuleLine(sc, rule, i)) == H.TickAt(NowAt(sc, i - 1))
  {
  }

  /** What was observed before an iteration was observed before the tick of the one before. */
  lemma PreviousTick(sc: Scene, rule: nat, i: nat, tr: seq<H.Event>, p: nat)
    requires sc.samples != [] && tr == RuleLine(sc, rule, i + 1)
    requires p < |tr| && p < |RuleLine(sc, rule, i)| && tr[p].Obs?
    ensures var k := |RuleLine(sc, rule, i)| - 1;
            i > 0 && p < k < |tr| - 1 && tr[k] == H.TickAt(NowAt(sc, i) - sc.tick)
  {
    var line := RuleLine(sc, rule, i);
    TickInLine(sc, rule, i, i + 1);
    LineEnds(sc, rule, i);
    hide RuleLine, NowAt;
    assert tr[..|line|][|line| - 1] == tr[|line| - 1] && tr[..|line|][p] == tr[p];
    if i > 0 {
      TimelineUnfolds(sc, i - 1);
    }
  }

  /** Every tick of a run is the tick of an iteration. */
  lemma {:induction false} TickOnGrid(sc: Scene, rule: nat, n: nat, j: nat) returns (i: nat)
    requires sc.samples != [] && j < |RuleLine(sc, rule, n)| && RuleLine(sc, rule, n)[j].TickAt?
    ensures i < n && j == TickStep(sc, rule, i)
  {
    hide RuleLine, NowAt, NextSample, Answer;
    LineEnds(sc, rule, n);
    i := n - 1;
    TickInLine(sc, rule, i, n);
    if j < |RuleLine(sc, rule, i)| {
      assert RuleLine(sc, rule, n)[..|RuleLine(sc, rule, i)|][j] == RuleLine(sc, rule, n)[j];
      i := TickOnGrid(sc, rule, i, j);
    } else {
      IterationStep(sc, rule, i, j);
    }
  }

  /** What a rule is told in iteration `i` was captured less than a tick period before the
      iteration's tick. */
  lemma CapturedInIteration(sc: Scene, rule: nat, i: nat, p: nat)
    requires Replayable(sc) && Ordered(sc)
    requires |RuleLine(sc, rule, i)| <= p < |RuleLine(sc, rule, i + 1)| && RuleLine(sc, rule, i + 1)[p].Obs?
    ensures NowAt(sc, i) - sc.tick < RuleLine(sc, rule, i + 1)[p].o.at <= NowAt(sc, i)
  {
    hide RuleLine, NowAt, NextSample;
    IterationStep(sc, rule, i, p);
    TimelineStarts(sc);
    if i == 0 {
      DueFirst(sc, NextSample(sc, 1));
    } else {
      TimelineUnfolds(sc, i - 1);
      DueNext(sc, i);
    }
  }

  /** The observations of a run come before the ticks that are not earlier than they are,
      and after the ticks that are. */
  lemma TickAfter(sc: Scene, rule: nat, n: nat, p: nat, i: nat)
    requires Replayable(sc) && Ordered(sc) && i < n
    requires p < |RuleLine(sc, rule, n)| && RuleLine(sc, rule, n)[p].Obs?
    ensures p < TickStep(sc, rule, i) <==> RuleLine(sc, rule, n)[p].o.at <= NowAt(sc, i)
  {
    hide RuleLine, NowAt, NextSample, Rates.Cadenced, LosingSight.Fresh;
    var tr, k := RuleLine(sc, rule, n), TickStep(sc, rule, i);
    TickInLine(sc, rule, i, n);
    RuleLinePaced(sc, rule, i);
    RuleLinePaced(sc, rule, n - 1);
    if p < k {
      assert tr[..k + 1][p] == tr[p];
    }
  }

  lemma NowOrder(sc: Scene, i: nat, m: nat)
    requires Replayable(sc) && i < m
    ensures NowAt(sc, i) + sc.tick <= NowAt(sc, m)
  {
    Multiples(i, m, sc.tick);
  }

  lemma {:induction false} Multiples(i: nat, m: nat, t: int)
    requires i < m && t > 0
    ensures i * t + t <= m * t
  {
    var k := m - 1;
    assert (k + 1) * t == k * t + t;
    if i < k {
      Multiples(i, k, t);
    }
  }

  /** Some tick of the replay is at `t`. */
  ghost predicate OnGrid(sc: Scene, t: int)
    requires sc.samples != []
  {
    exists m: nat :: NowAt(sc, m) == t
  }

  /** The first tick that is not before `t` is at `t` exactly when `t` is a tick's time. */
  lemma FirstTickFrom(sc: Scene, i: nat, t: int)
    requires Replayable(sc) && NowAt(sc, i) - sc.tick < t <= NowAt(sc, i)
    ensures NowAt(sc, i) == t <==> OnGrid(sc, t)
  {
    hide NowAt;
    if m: nat :| NowAt(sc, m) == t {
      if m < i {
        NowOrder(sc, m, i);
      } else if i < m {
        NowOrder(sc, i, m);
      }
    }
  }

}
