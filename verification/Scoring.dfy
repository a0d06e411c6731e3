/**
 `gw_score` (src/gw_score.c): matches detections in place, counts, and accounts for
 the rule's time.
 */
module Scoring {
  import opened Machine
  import opened Options
  import opened Watching
  import opened Scenes
  import opened Matching
  import opened Wilson
  import Replay
  import opened ReplayResults

  /** The detections with those of one rule answered by the greedy assignment. */
  function Answered(truth: seq<Truth>, dets: seq<Detection>, rule: nat, d: nat): (r: seq<Detection>)
    requires d <= |dets|
    ensures |r| == |dets|
  {
    var g := Greedy(truth, dets, rule, |dets|);
    seq(|dets|, i requires 0 <= i < |dets| =>
      if i >= d || dets[i].rule != rule then dets[i]
      else dets[i].(matched := if i in g then Some(g[i]) else None))
  }

  function Matched(truth: seq<Truth>, dets: seq<Detection>, rule: nat): seq<Detection> {
    Answered(truth, dets, rule, |dets|)
  }

  /** What is decided about a detection is not revised later. */
  lemma {:induction false} GreedyKeeps(truth: seq<Truth>, dets: seq<Detection>, rule: nat, d: nat, e: nat, i: nat)
    requires i < d <= e <= |dets|
    ensures var g, h := Greedy(truth, dets, rule, d), Greedy(truth, dets, rule, e);
            (i in g <==> i in h) && (i in g ==> g[i] == h[i])
  {
    if d < e {
      GreedyKeeps(truth, dets, rule, d, e - 1, i);
    }
  }

  // ---------------------------------------------------------------- what the answers are

  /** The match window of the event, ends included, holds the time. */
  predicate WindowHolds(t: Truth, at: int) {
    t.at - t.before <= at <= t.at + t.after
  }

  /** Every answer given to one of the rule's detections is one of the rule's events, whose
      match window holds it; no two of its detections are given the same event; and a
      detection of another rule is left as it was. */
  lemma AnswersAreRight(truth: seq<Truth>, dets: seq<Detection>, rule: nat)
    ensures var r := Matched(truth, dets, rule);
            && |r| == |dets|
            && (forall i :: 0 <= i < |r| ==> r[i].at == dets[i].at && r[i].rule == dets[i].rule)
            && (forall i :: 0 <= i < |r| && r[i].rule != rule ==> r[i] == dets[i])
            && (forall i :: 0 <= i < |r| && r[i].rule == rule && r[i].matched.Some? ==>
                  var t := r[i].matched.value;
                  t < |truth| && truth[t].rule == rule && WindowHolds(truth[t], r[i].at))
            && (forall i, j :: 0 <= i < j < |r| && r[i].rule == r[j].rule == rule && r[i].matched.Some? ==>
                  r[i].matched != r[j].matched)
  {
    GreedyIsAssignment(truth, dets, rule, |dets|);
    hide Greedy;
  }

  /** True positives are the rule's detections that have an answer. */
  lemma TruePositivesAreAnswers(truth: seq<Truth>, dets: seq<Detection>, rule: nat)
    ensures var r := Matched(truth, dets, rule);
            |Greedy(truth, dets, rule, |dets|)| == |set i: nat | i < |r| && r[i].rule == rule && r[i].matched.Some?|
  {
    var g, r := Greedy(truth, dets, rule, |dets|), Matched(truth, dets, rule);
    GreedyIsAssignment(truth, dets, rule, |dets|);
    hide Greedy;
    assert g.Keys == set i: nat | i < |r| && r[i].rule == rule && r[i].matched.Some?;
  }

  /** With window starts in order, a detection of the rule is left unanswered only if every
      event of the rule whose match window holds it is the answer of an earlier detection. */
  lemma UnansweredIsRight(truth: seq<Truth>, dets: seq<Detection>, rule: nat, i: nat, t: nat)
    requires forall s, t :: 0 <= s < t < |truth| && truth[s].rule == truth[t].rule == rule ==>
               truth[s].at - truth[s].before <= truth[t].at - truth[t].before
    requires i < |dets| && dets[i].rule == rule && Matched(truth, dets, rule)[i].matched == None
    requires t < |truth| && truth[t].rule == rule && WindowHolds(truth[t], dets[i].at)
    ensures exists j :: 0 <= j < i && dets[j].rule == rule && Matched(truth, dets, rule)[j].matched == Some(t)
  {
    assert LeftSorted(truth, rule);
    var g, h := Greedy(truth, dets, rule, i), Greedy(truth, dets, rule, |dets|);
    GreedyKeeps(truth, dets, rule, i + 1, |dets|, i);
    GreedyIsAssignment(truth, dets, rule, i);
    assert Pick(truth, g.Values, rule, dets[i].at, 0).None?;
    PickNone(truth, g.Values, rule, dets[i].at, 0);
    hide Pick, Greedy, LeftSorted;
    assert t in g.Values;
    var j :| j in g && g[j] == t;
    GreedyKeeps(truth, dets, rule, i, |dets|, j);
  }

  // ---------------------------------------------------------------- counting

  function DetectionsOf(dets: seq<Detection>, rule: nat, n: nat): nat
    requires n <= |dets|
  {
    if n == 0 then 0 else DetectionsOf(dets, rule, n - 1) + if dets[n - 1].rule == rule then 1 else 0
  }

  function EventsOf(truth: seq<Truth>, rule: nat, n: nat): nat
    requires n <= |truth|
  {
    if n == 0 then 0 else EventsOf(truth, rule, n - 1) + if truth[n - 1].rule == rule then 1 else 0
  }

  /** How many of the first `n` events are open. */
  function OpenCount(truth: seq<Truth>, taken: set<nat>, rule: nat, n: nat): nat
    requires n <= |truth|
  {
    if n == 0 then 0 else OpenCount(truth, taken, rule, n - 1) + if Open(truth, taken, rule, n - 1) then 1 else 0
  }

  lemma {:induction false} NoneTaken(truth: seq<Truth>, rule: nat, n: nat)
    requires n <= |truth|
    ensures OpenCount(truth, {}, rule, n) == EventsOf(truth, rule, n)
  {
    if n > 0 {
      NoneTaken(truth, rule, n - 1);
    }
  }

  lemma {:induction false} TakingOne(truth: seq<Truth>, taken: set<nat>, rule: nat, t: nat, n: nat)
    requires n <= |truth| && t < |truth| && Open(truth, taken, rule, t)
    ensures OpenCount(truth, taken + {t}, rule, n) == OpenCount(truth, taken, rule, n) - if t < n then 1 else 0
  {
    if n > 0 {
      TakingOne(truth, taken, rule, t, n - 1);
    }
  }

  // ---------------------------------------------------------------- the loops

  predicate Flags(flags: seq<bool>, taken: set<nat>) {
    forall t :: 0 <= t < |flags| ==> (flags[t] <==> t in taken)
  }

  /** The inner loop: the event this detection answers, if any. */
  method Search(truth: seq<Truth>, truthTaken: array<bool>, rule: nat, at: int, ghost taken: set<nat>)
    returns (r: Option<nat>)
    requires truthTaken.Length == |truth| && Flags(truthTaken[..], taken)
    ensures r == Pick(truth, taken, rule, at, 0)
  {
    var t := 0;
    while t < |truth|
      invariant 0 <= t <= |truth|
      invariant Pick(truth, taken, rule, at, 0) == Pick(truth, taken, rule, at, t)
    {
      assert truthTaken[t] == truthTaken[..][t];
      if !truthTaken[t] && truth[t].rule == rule {
        if at < truth[t].at - truth[t].before {
          return None;
        }
        if at <= truth[t].at + truth[t].after {
          return Some(t);
        }
      }
      t := t + 1;
    }
    return None;
  }

  /** What the outer loop has done before detection `d`. */
  ghost predicate SoFar(truth: seq<Truth>, was: seq<Detection>, rule: nat, d: nat,
                        now: seq<Detection>, flags: seq<bool>, tp: nat, fp: nat)
    requires d <= |was|
  {
    var g := Greedy(truth, was, rule, d);
    && now == Answered(truth, was, rule, d)
    && |flags| == |truth| && Flags(flags, g.Values)
    && tp == |g| && tp + fp == DetectionsOf(was, rule, d)
    && tp + OpenCount(truth, g.Values, rule, |truth|) == EventsOf(truth, rule, |truth|)
  }

  lemma SkipsOther(truth: seq<Truth>, was: seq<Detection>, rule: nat, d: nat,
                   now: seq<Detection>, flags: seq<bool>, tp: nat, fp: nat)
    requires d < |was| && was[d].rule != rule && SoFar(truth, was, rule, d, now, flags, tp, fp)
    ensures SoFar(truth, was, rule, d + 1, now, flags, tp, fp)
  {
    GreedyStays(truth, was, rule, d);
    assert Answered(truth, was, rule, d + 1) == Answered(truth, was, rule, d);
  }

  lemma AnsweredStep(truth: seq<Truth>, was: seq<Detection>, rule: nat, d: nat)
    requires d < |was| && was[d].rule == rule
    ensures var p := Pick(truth, Greedy(truth, was, rule, d).Values, rule, was[d].at, 0);
            Answered(truth, was, rule, d + 1) == Answered(truth, was, rule, d)[d := was[d].(matched := p)]
  {
    var g := Greedy(truth, was, rule, |was|);
    GreedyIsAssignment(truth, was, rule, d);
    GreedyKeeps(truth, was, rule, d + 1, |was|, d);
    var p := Pick(truth, Greedy(truth, was, rule, d).Values, rule, was[d].at, 0);
    assert p == if d in g then Some(g[d]) else None;
    hide Pick, Greedy;
    var x, y := Answered(truth, was, rule, d + 1), Answered(truth, was, rule, d)[d := was[d].(matched := p)];
    forall i | 0 <= i < |was| ensures x[i] == y[i] {
    }
  }

  lemma MatchesNothing(truth: seq<Truth>, was: seq<Detection>, rule: nat, d: nat,
                       now: seq<Detection>, flags: seq<bool>, tp: nat, fp: nat)
    requires d < |was| && was[d].rule == rule && SoFar(truth, was, rule, d, now, flags, tp, fp)
    requires Pick(truth, Greedy(truth, was, rule, d).Values, rule, was[d].at, 0).None?
    ensures SoFar(truth, was, rule, d + 1, now[d := was[d].(matched := None)], flags, tp, fp + 1)
  {
    GreedyStays(truth, was, rule, d);
    AnsweredStep(truth, was, rule, d);
  }

  lemma MatchesEvent(truth: seq<Truth>, was: seq<Detection>, rule: nat, d: nat,
                     now: seq<Detection>, flags: seq<bool>, tp: nat, fp: nat, t: nat)
    requires d < |was| && was[d].rule == rule && SoFar(truth, was, rule, d, now, flags, tp, fp)
    requires Pick(truth, Greedy(truth, was, rule, d).Values, rule, was[d].at, 0) == Some(t)
    ensures SoFar(truth, was, rule, d + 1, now[d := was[d].(matched := Some(t))], flags[t := true], tp + 1, fp)
  {
    hide Answered;
    GreedyGrows(truth, was, rule, d);
    AnsweredStep(truth, was, rule, d);
    TakingOne(truth, Greedy(truth, was, rule, d).Values, rule, t, |truth|);
  }

  /** The matching part of `gw_score`.  Detections of other rules are left as they are. */
  method Match(truth: seq<Truth>, dets: array<Detection>, rule: nat) returns (tp: nat, fp: nat, fn: nat)
    modifies dets
    ensures dets[..] == Matched(truth, old(dets[..]), rule)
    ensures forall i :: 0 <= i < dets.Length && dets[i].rule == rule && dets[i].matched.Some? ==>
              var t := dets[i].matched.value;
              t < |truth| && truth[t].rule == rule && WindowHolds(truth[t], dets[i].at)
    ensures tp == |Greedy(truth, old(dets[..]), rule, dets.Length)|
    ensures tp + fp == DetectionsOf(old(dets[..]), rule, dets.Length)
    ensures tp + fn == EventsOf(truth, rule, |truth|)
  {
    hide Greedy, Pick, Answered, Flags, OpenCount, EventsOf, DetectionsOf;
    ghost var was := dets[..];
    var truthTaken := new bool[|truth|](_ => false);
    tp, fp, fn := 0, 0, 0;
    var d := 0;
    Start(truth, was, rule, truthTaken[..]);
    while d < dets.Length
      invariant 0 <= d <= dets.Length
      invariant SoFar(truth, was, rule, d, dets[..], truthTaken[..], tp, fp)
    {
      Untouched(truth, was, rule, d);
      assert dets[d] == dets[..][d] == was[d];
      if dets[d].rule != rule {
        SkipsOther(truth, was, rule, d, dets[..], truthTaken[..], tp, fp);
      } else {
        var r := Search(truth, truthTaken, rule, dets[d].at, Greedy(truth, was, rule, d).Values);
        match r
        case Some(t) =>
          MatchesEvent(truth, was, rule, d, dets[..], truthTaken[..], tp, fp, t);
          truthTaken[t] := true;
          dets[d] := dets[d].(matched := Some(t));
          tp := tp + 1;
        case None =>
          MatchesNothing(truth, was, rule, d, dets[..], truthTaken[..], tp, fp);
          dets[d] := dets[d].(matched := None);
          fp := fp + 1;
      }
      d := d + 1;
    }
    fn := CountOpen(truth, truthTaken, rule, Greedy(truth, was, rule, |was|).Values);
    AnswersAreRight(truth, was, rule);
    assert forall i :: 0 <= i < dets.Length ==> dets[i] == dets[..][i];
  }

  lemma Untouched(truth: seq<Truth>, was: seq<Detection>, rule: nat, d: nat)
    requires d < |was|
    ensures Answered(truth, was, rule, d)[d] == was[d]
  {
  }

  lemma Start(truth: seq<Truth>, was: seq<Detection>, rule: nat, flags: seq<bool>)
    requires |flags| == |truth| && forall t :: 0 <= t < |flags| ==> !flags[t]
    ensures SoFar(truth, was, rule, 0, was, flags, 0, 0)
  {
    assert Answered(truth, was, rule, 0) == was;
    var g := Greedy(truth, was, rule, 0);
    assert g.Values == {};
    NoneTaken(truth, rule, |truth|);
  }

  /** The last loop: the events that nothing answered. */
  method CountOpen(truth: seq<Truth>, truthTaken: array<bool>, rule: nat, ghost taken: set<nat>) returns (fn: nat)
    requires truthTaken.Length == |truth| && Flags(truthTaken[..], taken)
    ensures fn == OpenCount(truth, taken, rule, |truth|)
  {
    fn := 0;
    var t := 0;
    while t < |truth|
      invariant 0 <= t <= |truth| && fn == OpenCount(truth, taken, rule, t)
    {
      assert truthTaken[t] == truthTaken[..][t];
      if truth[t].rule == rule && !truthTaken[t] {
        fn := fn + 1;
      }
      t := t + 1;
    }
  }

  // ---------------------------------------------------------------- several rules

  lemma {:induction false} GreedyIgnoresAnswers(truth: seq<Truth>, dets: seq<Detection>, dets': seq<Detection>,
                                                rule: nat, d: nat)
    requires d <= |dets| == |dets'|
    requires forall i :: 0 <= i < |dets| ==> dets[i].rule == dets'[i].rule && dets[i].at == dets'[i].at
    ensures Greedy(truth, dets', rule, d) == Greedy(truth, dets, rule, d)
  {
    if d > 0 {
      GreedyIgnoresAnswers(truth, dets, dets', rule, d - 1);
    }
  }

  /** Scoring rules in any order gives the same answers. */
  lemma ScoringOrder(truth: seq<Truth>, dets: seq<Detection>, r: nat, s: nat)
    ensures Matched(truth, Matched(truth, dets, r), s) == Matched(truth, Matched(truth, dets, s), r)
  {
    var a, b := Matched(truth, dets, r), Matched(truth, dets, s);
    GreedyIgnoresAnswers(truth, dets, a, s, |dets|);
    GreedyIgnoresAnswers(truth, dets, b, r, |dets|);
    hide Greedy;
    forall i | 0 <= i < |dets| ensures Matched(truth, a, s)[i] == Matched(truth, b, r)[i] {
    }
  }

  /** Scoring what a replay detected: no one-to-one in-window assignment of the detections
      to the rule's events has more pairs than there are true positives. */
  lemma ReplayIsScoredOptimally(sc: Scene, rule: nat, n: nat, m: map<nat, nat>)
    requires Replayable(sc) && LeftSorted(sc.truth, rule) && RightSorted(sc.truth, rule)
    requires Assignment(sc.truth, Detections(sc, n), rule, 0, {}, m)
    ensures |m| <= |Greedy(sc.truth, Detections(sc, n), rule, |Detections(sc, n)|)|
  {
    DetectionTimes(sc, n);
    hide Assignment, Greedy, LeftSorted, RightSorted, Detections;
    GreedyIsOptimal(sc.truth, Detections(sc, n), rule, m);
  }

  // ---------------------------------------------------------------- the whole score

  datatype Metrics = Metrics(
    truePositives: nat,
    falsePositives: nat,
    falseNegatives: nat,
    precision: Interval,
    recall: Interval,
    availability: real,
    observed: int,
    unknown: int)

  const NO_TRIALS := Interval(0.0, 0.0, 0.0)

  const NOTHING := Metrics(0, 0, 0, NO_TRIALS, NO_TRIALS, 0.0, 0, 0)

  /** What `availability` finds over a replay of `ticks` iterations: the share of the ticks but
      the last after which the rule's answers so far confirm a value.  The rest, in which they
      do not, is unknown time and stays in the denominator. */
  ghost predicate Accounted(sc: Scene, rule: nat, ticks: nat, observed: int, unknown: int, availability: real)
    requires sc.samples != [] && rule < |sc.rules|
  {
    && FirstDone(sc, ticks)
    && observed == sc.tick * |ConfirmedTicks(sc, rule, ticks - 1)|
    && observed + unknown == sc.tick * (ticks - 1)
    && (ticks > 1 ==> availability * (ticks - 1) as real == |ConfirmedTicks(sc, rule, ticks - 1)| as real)
    && (ticks == 1 ==> availability == 0.0)
  }

  method Availability(sc: Scene, rule: nat) returns (observed: int, unknown: int, availability: real, ghost ticks: nat)
    requires Replayable(sc) && rule < |sc.rules|
    ensures !Accepted(sc) ==> observed == unknown == 0 && availability == 0.0
    ensures Accepted(sc) ==> Accounted(sc, rule, ticks, observed, unknown, availability)
  {
    hide HeldTicks, DoneAt, Detections, SetupStatus, Collected, Span, ConfirmedTicks;
    var discard := new Detection[0];
    var walked, n;
    walked, n, observed, unknown, ticks := Replay.Walk(sc, discard, Some(rule));
    if Accepted(sc) {
      HeldTicksCount(sc, rule, ticks - 1);
      SpanIs(sc, HeldTicks(sc, rule, ticks - 1));
      SpanIs(sc, ticks - 1);
      ShareOfTicks(sc, HeldTicks(sc, rule, ticks - 1), ticks - 1);
    }
    var total := observed + unknown;
    availability := if total > 0 then observed as real / total as real else 0.0;
  }

  /** The interval is a credible one if the root that it takes is exact. */
  predicate Vouched(i: Interval, k: nat, n: nat, sqrt: real -> real) {
    IsRoot(k, n, RootBy(sqrt, k, n)) ==> Credible(i, k, n)
  }

  lemma Vouch(sqrt: real -> real, k: nat, n: nat)
    requires k <= n
    ensures Vouched(Estimate(k, n, sqrt), k, n, sqrt)
  {
    if IsRoot(k, n, RootBy(sqrt, k, n)) {
      WilsonCredible(sqrt, k, n);
    }
  }

  /** `gw_score`, given the square root it is to use; nothing is asked of it but at the two
      radicands.  No time is accounted for when the watch does not accept the scene's rules. */
  method Score(sc: Scene, dets: array<Detection>, rule: nat, sqrt: real -> real)
    returns (status: Status, m: Metrics, ghost ticks: nat)
    requires Replayable(sc)
    modifies dets
    ensures status == if rule < |sc.rules| then Ok else InvalidArg
    ensures status != Ok ==> m == NOTHING && unchanged(dets)
    ensures status == Ok ==>
              && dets[..] == Matched(sc.truth, old(dets[..]), rule)
              && m.truePositives == |Greedy(sc.truth, old(dets[..]), rule, dets.Length)|
              && m.truePositives + m.falsePositives == DetectionsOf(old(dets[..]), rule, dets.Length)
              && m.truePositives + m.falseNegatives == EventsOf(sc.truth, rule, |sc.truth|)
              && m.precision == Estimate(m.truePositives, m.truePositives + m.falsePositives, sqrt)
              && m.recall == Estimate(m.truePositives, m.truePositives + m.falseNegatives, sqrt)
              && Vouched(m.precision, m.truePositives, m.truePositives + m.falsePositives, sqrt)
              && Vouched(m.recall, m.truePositives, m.truePositives + m.falseNegatives, sqrt)
    ensures status == Ok && !Accepted(sc) ==> m.observed == m.unknown == 0 && m.availability == 0.0
    ensures status == Ok && Accepted(sc) ==> Accounted(sc, rule, ticks, m.observed, m.unknown, m.availability)
  {
    hide Accounted, Greedy, Matched, DetectionsOf, EventsOf, SetupStatus, Credible, Vouched, Estimate;
    m, ticks := NOTHING, 0;
    if rule >= |sc.rules| {
      return InvalidArg, m, ticks;
    }
    var tp, fp, fn := Match(sc.truth, dets, rule);
    var precision := Estimate(tp, tp + fp, sqrt);
    Vouch(sqrt, tp, tp + fp);
    var recall := Estimate(tp, tp + fn, sqrt);
    Vouch(sqrt, tp, tp + fn);
    var observed, unknown, availability;
    observed, unknown, availability, ticks := Availability(sc, rule);
    m := Metrics(tp, fp, fn, precision, recall, availability, observed, unknown);
    status := Ok;
  }

  lemma SpanIs(sc: Scene, k: int)
    ensures Span(sc, k) == sc.tick * k
  {
  }

  /** The observed share of the time is the share of the ticks. */
  lemma ShareOfTicks(sc: Scene, held: nat, n: nat)
    requires sc.tick > 0 && held <= n
    ensures Span(sc, held) + Span(sc, n - held) == Span(sc, n)
    ensures n == 0 ==> Span(sc, n) == 0
    ensures n > 0 ==> Span(sc, n) > 0 && (Span(sc, held) as real / Span(sc, n) as real) * n as real == held as real
  {
    assert held * sc.tick + (n - held) * sc.tick == n * sc.tick;
    if n > 0 {
      assert n * sc.tick >= sc.tick;
      assert (held * sc.tick) as real == held as real * sc.tick as real;
      assert (n * sc.tick) as real == n as real * sc.tick as real;
      Cancels(held as real, n as real, sc.tick as real);
    }
  }

  lemma Cancels(h: real, n: real, t: real)
    requires n > 0.0 && t > 0.0
    ensures n * t != 0.0 && (h * t) / (n * t) * n == h
  {
    Positive(n, t);
    var q := (h * t) / (n * t);
    assert q * (n * t) == h * t;
    assert (q * n) * t == q * (n * t);
    Cancel(q * n, h, t);
    Cancel(h, q * n, t);
  }
}
