/**
 The replay of src/gw_score.c: `walk` puts a scene to a watch on a fixed tick cadence,
 collects detections and accounts for time.
 */
module Replay {
  import opened Machine
  import opened Options
  import opened Watching
  import opened Scenes

  /** `gw_init` and `gw_add_rule` for every rule; also what a restart does. */
  method Setup(w: Watch, sc: Scene) returns (status: Status)
    requires w.Valid()
    modifies w
    ensures w.Valid() && fresh(set r | r in w.rules)
    ensures w.history == old(w.history) + [RestartAll] && !w.hasTicked
    ensures status == SetupStatus(sc, |sc.rules|)
    ensures status == Ok ==> w.cfgs == sc.rules
  {
    hide Watch.Valid;
    status := w.Init(sc.camera);
    var i := 0;
    while status == Ok && i < |sc.rules|
      invariant 0 <= i <= |sc.rules| && (status != Ok || w.cfgs == sc.rules[..i])
      invariant w.Valid() && fresh(set r | r in w.rules)
      invariant w.history == old(w.history) + [RestartAll] && !w.hasTicked
      invariant status == SetupStatus(sc, i)
      decreases |sc.rules| - i
    {
      status := AddNext(w, sc.rules[i]);
      i := i + 1;
    }
    SetupStops(sc, i, |sc.rules|);
  }

  /** `gw_add_rule`, its index not being looked at. */
  method AddNext(w: Watch, cfg: Config) returns (status: Status)
    requires w.Valid()
    modifies w
    ensures w.Valid() && fresh((set r | r in w.rules) - old(set r | r in w.rules))
    ensures w.history == old(w.history) && w.hasTicked == old(w.hasTicked)
    ensures status == AddStatus(|old(w.cfgs)|, cfg)
    ensures status == Ok ==> w.cfgs == old(w.cfgs) + [cfg]
  {
    ghost var before := w.rules;
    var rule;
    status, rule := w.AddRule(cfg);
    if status == Ok {
      assert forall r :: r in w.rules ==> r in w.rules[..rule] || r == w.rules[rule];
    }
  }

  lemma {:induction false} SetupStops(sc: Scene, m: nat, n: nat)
    requires m <= n <= |sc.rules|
    ensures SetupStatus(sc, m) != Ok ==> SetupStatus(sc, n) == SetupStatus(sc, m)
  {
    if m < n {
      SetupStops(sc, m, n - 1);
    }
  }

  /** Puts one sample to the rules that it labels. */
  method Deliver(w: Watch, sc: Scene, k: nat)
    requires w.Valid() && w.cfgs == sc.rules && k < |sc.samples|
    modifies w`history, w.rules
    ensures w.Valid()
    ensures w.history == old(w.history) + SampleEvents(sc, k, |sc.rules|)
  {
    hide Watch.Valid;
    var smp := sc.samples[k];
    var r := 0;
    while r < |sc.rules|
      invariant 0 <= r <= |sc.rules|
      invariant w.Valid()
      invariant w.history == old(w.history) + SampleEvents(sc, k, r)
    {
      if r in smp.labels {
        var o := Observation(k + 1, smp.at, smp.labels[r]);
        var os := w.Observe(r, o);
        // The rule exists, so nothing but a refusal of the frame can come back.
        assert os == Ok || os == Duplicate || os == Stale;
      }
      r := r + 1;
    }
  }

  /** Delivers the samples from `next` on that have come due. */
  method DeliverDue(w: Watch, sc: Scene, next: nat, now: int) returns (after: nat)
    requires w.Valid() && w.cfgs == sc.rules && next <= |sc.samples|
    modifies w`history, w.rules
    ensures w.Valid()
    ensures after == Skip(Times(sc), next, now)
    ensures w.history == old(w.history) + SamplesEvents(sc, next, after)
  {
    hide Watch.Valid;
    after := next;
    ghost var times := Times(sc);
    while after < |sc.samples| && sc.samples[after].at <= now
      invariant next <= after <= |sc.samples|
      invariant w.Valid()
      invariant Skip(times, next, now) == Skip(times, after, now)
      invariant w.history == old(w.history) + SamplesEvents(sc, next, after)
    {
      Deliver(w, sc, after);
      after := after + 1;
    }
  }

  ghost function LatestSample(sc: Scene, n: nat): (m: int)
    requires 0 < n <= |sc.samples|
    ensures forall i :: 0 <= i < n ==> sc.samples[i].at <= m
  {
    if n == 1 then sc.samples[0].at
    else
      var m := LatestSample(sc, n - 1);
      if sc.samples[n - 1].at > m then sc.samples[n - 1].at else m
  }

  /** Appends what a tick fired to the detections, `n` of which came before. */
  method Record(out: array<Detection>, n: nat, fired: array<nat>, count: nat, now: int,
                ghost found: seq<Detection>, ghost was: seq<Detection>)
    returns (m: nat)
    requires count <= fired.Length && n == |found| && Collected(out[..], found, was)
    modifies out
    ensures m == n + count && Collected(out[..], found + Stamped(fired[..count], now), was)
  {
    m := n;
    var f := 0;
    while f < count
      invariant 0 <= f <= count && m == n + f
      invariant Collected(out[..], found + Stamped(fired[..f], now), was)
    {
      if m < out.Length {
        out[m] := Detection(fired[f], now, None);
      }
      m := m + 1;
      f := f + 1;
    }
  }

  /** Takes the restarts that have come due. */
  method RestartDue(w: Watch, sc: Scene, nextRestart: nat, now: int) returns (after: nat)
    requires w.Valid() && w.cfgs == sc.rules && Accepted(sc) && nextRestart <= |sc.restarts|
    requires w.hasTicked ==> w.lastTick <= now
    modifies w
    ensures w.Valid() && w.cfgs == sc.rules && fresh((set r | r in w.rules) - old(set r | r in w.rules))
    ensures w.hasTicked ==> w.lastTick <= now
    ensures after == Skip(sc.restarts, nextRestart, now)
    ensures w.history == old(w.history) + Restarts(after - nextRestart)
  {
    hide Watch.Valid, SetupStatus;
    after := nextRestart;
    while after < |sc.restarts| && sc.restarts[after] <= now
      invariant nextRestart <= after <= |sc.restarts|
      invariant w.Valid() && w.cfgs == sc.rules && fresh((set r | r in w.rules) - old(set r | r in w.rules))
      invariant w.hasTicked ==> w.lastTick <= now
      invariant Skip(sc.restarts, nextRestart, now) == Skip(sc.restarts, after, now)
      invariant w.history == old(w.history) + Restarts(after - nextRestart)
    {
      var s := Setup(w, sc);
      assert s == Ok;
      after := after + 1;
    }
  }

  /** One iteration of the replay, up to and including its tick. */
  method Iterate(w: Watch, sc: Scene, next: nat, nextRestart: nat, now: int, fired: array<nat>, ghost i: nat)
    returns (next': nat, nextRestart': nat, count: nat)
    requires w.Valid() && w.cfgs == sc.rules && Accepted(sc) && sc.samples != [] && fired.Length == MAX_RULES
    requires w.history == Timeline(sc, i) && now == NowAt(sc, i) && (w.hasTicked ==> w.lastTick <= now)
    requires next == NextSample(sc, i) && nextRestart == NextRestart(sc, i)
    modifies w, w.rules, fired
    ensures w.Valid() && w.cfgs == sc.rules && fresh((set r | r in w.rules) - old(set r | r in w.rules))
    ensures w.history == Timeline(sc, i + 1) && w.hasTicked && w.lastTick == now
    ensures next' == NextSample(sc, i + 1) && nextRestart' == NextRestart(sc, i + 1)
    ensures count <= fired.Length && fired[..count] == Fired(sc.rules, BeforeTick(sc, i), now)
  {
    hide Watch.Valid, Timeline, AfterRestarts, BeforeTick, NextSample, NextRestart, NowAt;
    hide Skip, Restarts, SamplesEvents, Fired, RunOf, Reports, Usable, SetupStatus;
    TimelineUnfolds(sc, i);
    nextRestart' := RestartDue(w, sc, nextRestart, now);
    assert w.history == AfterRestarts(sc, i);
    next' := DeliverDue(w, sc, next, now);
    assert w.history == BeforeTick(sc, i);
    AcceptedExactly(sc, |sc.rules|);
    FiredExactly(sc.rules, BeforeTick(sc, i), now);
    var s;
    s, count := w.Tick(now, fired);
    // The time has not gone back, and there is room for every rule.
    assert s == Ok;
  }

  /** Attributes the interval after the tick of iteration `i` to one of the two columns. */
  method Attribute(w: Watch, sc: Scene, rule: Option<nat>, now: int, was: int, wasNot: int, ghost i: nat)
    returns (observed: int, unknown: int)
    requires w.Valid() && w.cfgs == sc.rules && sc.samples != []
    requires w.history == Timeline(sc, i + 1) && now == NowAt(sc, i)
    requires was == Span(sc, Observed(sc, rule, i)) && wasNot == Span(sc, Unobserved(sc, rule, i))
    ensures observed == Span(sc, Observed(sc, rule, i + 1))
    ensures unknown == Span(sc, Unobserved(sc, rule, i + 1))
  {
    hide Watch.Valid, Timeline, RunOf, Span;
    SpanStep(sc, Observed(sc, rule, i));
    SpanStep(sc, Unobserved(sc, rule, i));
    observed, unknown := was, wasNot;
    if rule.Some? {
      var status, view := w.GetState(rule.value, now);
      if status == Ok {
        if view.confirmed == Unknown {
          unknown := unknown + sc.tick;
        } else {
          observed := observed + sc.tick;
        }
      }
    }
  }

  /** The loop of `walk`, on a watch that has just been set up. */
  method WalkOn(w: Watch, sc: Scene, out: array<Detection>, availRule: Option<nat>)
    returns (n: nat, observed: int, unknown: int, ghost ticks: nat)
    requires w.Valid() && w.cfgs == sc.rules && Accepted(sc) && !w.hasTicked && w.history == [RestartAll]
    requires Replayable(sc)
    modifies w, w.rules, out
    ensures FirstDone(sc, ticks)
    ensures n == |Detections(sc, ticks)| && Collected(out[..], Detections(sc, ticks), old(out[..]))
    ensures observed == Span(sc, Observed(sc, availRule, ticks - 1))
    ensures unknown == Span(sc, Unobserved(sc, availRule, ticks - 1))
  {
    hide Watch.Valid, Timeline, BeforeTick, NextSample, NextRestart, NowAt;
    hide Span, Observed, Unobserved, Fired, Skip, SetupStatus, RunOf, Detections, Stamped, Collected;
    n, observed, unknown, ticks := 0, 0, 0, 0;
    ghost var was := out[..];
    var fired := new nat[MAX_RULES];
    var now, next, nextRestart := sc.samples[0].at, 0, 0;
    TimelineStarts(sc);
    SpanStep(sc, 0);
    NothingYet(sc, availRule, was);
    while true
      invariant w.Valid() && w.cfgs == sc.rules
      invariant fresh((set r | r in w.rules) - old(set r | r in w.rules))
      invariant w.history == Timeline(sc, ticks)
      invariant now == NowAt(sc, ticks) && (w.hasTicked ==> w.lastTick <= now)
      invariant next == NextSample(sc, ticks) && nextRestart == NextRestart(sc, ticks)
      invariant forall m :: 0 <= m <= ticks ==> !DoneAt(sc, m)
      invariant n == |Detections(sc, ticks)| && Collected(out[..], Detections(sc, ticks), was)
      invariant observed == Span(sc, Observed(sc, availRule, ticks))
      invariant unknown == Span(sc, Unobserved(sc, availRule, ticks))
      decreases LatestSample(sc, |sc.samples|) - now
    {
      var count;
      TimelineUnfolds(sc, ticks);
      next, nextRestart, count := Iterate(w, sc, next, nextRestart, now, fired, ticks);
      DetectionsStep(sc, ticks);
      n := Record(out, n, fired, count, now, Detections(sc, ticks), was);
      ticks := ticks + 1;
      if next >= |sc.samples| && now >= sc.samples[|sc.samples| - 1].at {
        break;
      }
      observed, unknown := Attribute(w, sc, availRule, now, observed, unknown, ticks - 1);
      now := now + sc.tick;
    }
  }

  lemma DetectionsStep(sc: Scene, n: nat)
    requires sc.samples != []
    ensures var fired := Fired(sc.rules, BeforeTick(sc, n), NowAt(sc, n));
            && Detections(sc, n + 1) == Detections(sc, n) + Stamped(fired, NowAt(sc, n))
            && |Stamped(fired, NowAt(sc, n))| == |fired|
  {
  }

  lemma NothingYet(sc: Scene, rule: Option<nat>, was: seq<Detection>)
    requires sc.samples != []
    ensures Observed(sc, rule, 0) == Unobserved(sc, rule, 0) == 0
    ensures Detections(sc, 0) == [] && Collected(was, Detections(sc, 0), was)
  {
  }

  /** `walk`.  Up to `out.Length` detections are recorded; `n` counts them all.  Time is
      accounted for `availRule`, if one is given.  What the watch goes through depends on
      neither.  `ticks` is the number of iterations. */
  method Walk(sc: Scene, out: array<Detection>, availRule: Option<nat>)
    returns (status: Status, n: nat, observed: int, unknown: int, ghost ticks: nat)
    requires Replayable(sc)
    modifies out
    ensures !Accepted(sc) ==> status == SetupStatus(sc, |sc.rules|) && unchanged(out) && observed == unknown == 0
    ensures Accepted(sc) ==>
              && FirstDone(sc, ticks)
              && n == |Detections(sc, ticks)|
              && Collected(out[..], Detections(sc, ticks), old(out[..]))
              && status == (if n > out.Length then Limit else Ok)
              && observed == Span(sc, Observed(sc, availRule, ticks - 1))
              && unknown == Span(sc, Unobserved(sc, availRule, ticks - 1))
  {
    hide Watch.Valid, Timeline, Detections, Observed, Unobserved, DoneAt;
    n, observed, unknown, ticks := 0, 0, 0, 0;
    var w := new Watch();
    status := Setup(w, sc);
    if status != Ok {
      return;
    }
    n, observed, unknown, ticks := WalkOn(w, sc, out, availRule);
    status := if n > out.Length then Limit else Ok;
  }

  /** `gw_replay`. */
  method Replay(sc: Scene, out: array<Detection>) returns (status: Status, n: nat, ghost ticks: nat)
    requires Replayable(sc)
    modifies out
    ensures !Accepted(sc) ==> status == SetupStatus(sc, |sc.rules|) && unchanged(out)
    ensures Accepted(sc) ==>
              && FirstDone(sc, ticks)
              && n == |Detections(sc, ticks)|
              && Collected(out[..], Detections(sc, ticks), old(out[..]))
              && status == (if n > out.Length then Limit else Ok)
  {
    hide Detections, DoneAt, SetupStatus, Collected;
    var observed, unknown;
    status, n, observed, unknown, ticks := Walk(sc, out, None);
  }
}
