/**
 What a "sustained" rule reports, in terms of the observations alone.

 A run opens where the target becomes the confirmed value and stays open while
 every accepted observation is the target and sight is not lost.  One contrary
 observation closes it without changing the confirmed value, so the next run opens
 only after the confirmed value has left the target: that is how the code behaves,
 and it is why `OpensAt` asks what was confirmed before.
 */
module Sustained {
  import opened Machine
  import opened History

  /** Step `s` makes the target the confirmed value. */
  predicate OpensAt(cfg: Config, tr: seq<Event>, s: nat)
    requires s < |tr|
  {
    ConfirmsAt(cfg, tr, s, cfg.target) && ConfirmedBy(cfg, Evidence(cfg, tr[..s])) != cfg.target
  }

  /** Step `j` ends a run: sight is lost, or one accepted observation is not the target. */
  predicate BreaksAt(cfg: Config, tr: seq<Event>, j: nat)
    requires j < |tr|
  {
    BlindsAt(cfg, tr, j) || (AcceptsAt(tr, j) && tr[j].o.value != cfg.target)
  }

  /** The run opened at `s` is still open at the end of `tr`. */
  predicate RunHolds(cfg: Config, tr: seq<Event>, s: nat) {
    && s < |tr|
    && OpensAt(cfg, tr, s)
    && forall j :: s < j < |tr| ==> !BreaksAt(cfg, tr, j)
  }

  /** Step `j` is a tick by which a run opened at `s` has lasted long enough. */
  predicate RipeAt(cfg: Config, tr: seq<Event>, s: nat, j: nat)
    requires s < j < |tr| && tr[s].Obs?
  {
    tr[j].TickAt? && tr[j].now - tr[s].o.at >= cfg.sustain
  }

  predicate RipeSince(cfg: Config, tr: seq<Event>, s: nat)
    requires s < |tr| && tr[s].Obs?
  {
    exists j :: s < j < |tr| && RipeAt(cfg, tr, s, j)
  }

  /** The state of a sustained rule, read from the history: there is an open run, it
      started at step `s`, and it has been reported if and only if some tick found it ripe. */
  ghost predicate OpenSince(cfg: Config, tr: seq<Event>, r: Reaction, s: nat) {
    && RunHolds(cfg, tr, s)
    && r.runOpen
    && r.runStart == tr[s].o.at
    && (r.fired <==> RipeSince(cfg, tr, s))
  }

  ghost predicate ClosedRun(cfg: Config, tr: seq<Event>, r: Reaction) {
    !r.runOpen && !r.fired && forall s: nat :: !RunHolds(cfg, tr, s)
  }

  lemma RunHoldsUnfolds(cfg: Config, tr: seq<Event>, s: nat)
    requires tr != []
    ensures RunHolds(cfg, tr, s) <==>
            || (s == |tr| - 1 && OpensAt(cfg, tr, s))
            || (RunHolds(cfg, Pre(tr), s) && !BreaksAt(cfg, tr, |tr| - 1))
  {
    var p, n := Pre(tr), |tr| - 1;
    StepsOfPrefix(cfg, tr, n);
    assert forall j :: 0 <= j < n ==> BreaksAt(cfg, p, j) == BreaksAt(cfg, tr, j);
  }

  lemma RipeSinceUnfolds(cfg: Config, tr: seq<Event>, s: nat)
    requires tr != [] && s < |tr| - 1 && tr[s].Obs?
    ensures RipeSince(cfg, tr, s) <==> RipeSince(cfg, Pre(tr), s) || RipeAt(cfg, tr, s, |tr| - 1)
  {
    var p, n := Pre(tr), |tr| - 1;
    if j :| s < j < |tr| && RipeAt(cfg, tr, s, j) && j < n {
      assert RipeAt(cfg, p, s, j);
    }
    if j :| s < j < |p| && RipeAt(cfg, p, s, j) {
      assert RipeAt(cfg, tr, s, j);
    }
  }

  /** One step of a sustained rule. */
  lemma SustainedStep(cfg: Config, tr: seq<Event>)
    requires Usable(cfg) && cfg.kind.Sustained? && tr != []
    requires !Run(cfg, Pre(tr)).reaction.pending
    ensures var r, t, k := Run(cfg, Pre(tr)).reaction, Run(cfg, tr).reaction, |tr| - 1;
            && !t.pending
            && (OpensAt(cfg, tr, k) ==> t.runOpen && t.runStart == tr[k].o.at && !t.fired)
            && (BreaksAt(cfg, tr, k) ==> !t.runOpen && !t.fired)
            && (!OpensAt(cfg, tr, k) && !BreaksAt(cfg, tr, k) ==>
                  && t.runOpen == r.runOpen && t.runStart == r.runStart
                  && t.fired == (r.fired || (tr[k].TickAt? && RunDue(cfg, r, tr[k].now))))
            && (ReportsAt(cfg, tr, k) <==>
                  tr[k].TickAt? && !BlindsAt(cfg, tr, k) && RunDue(cfg, r, tr[k].now))
  {
    LastStep(cfg, tr);
  }

  /** A run that is open is not opened again: the target is confirmed all along. */
  lemma {:induction false} HoldingConfirms(cfg: Config, tr: seq<Event>, s: nat)
    requires RunHolds(cfg, tr, s)
    ensures ConfirmedBy(cfg, Evidence(cfg, tr)) == cfg.target
  {
    LastStep(cfg, tr);
    var n := |tr| - 1;
    assert tr[..n] == Pre(tr);
    if s < n {
      RunHoldsUnfolds(cfg, tr, s);
      HoldingConfirms(cfg, Pre(tr), s);
      if AcceptsAt(tr, n) {
        assert Pre(Evidence(cfg, tr)) == Evidence(cfg, Pre(tr));
      }
    }
  }

  lemma {:induction false} SustainedRefinement(cfg: Config, tr: seq<Event>)
    requires Usable(cfg) && cfg.kind.Sustained?
    ensures var r := Run(cfg, tr).reaction;
            && !r.pending
            && (ClosedRun(cfg, tr, r) || exists s: nat :: OpenSince(cfg, tr, r, s))
  {
    if tr != [] {
      var p, n, r, t := Pre(tr), |tr| - 1, Run(cfg, Pre(tr)).reaction, Run(cfg, tr).reaction;
      SustainedRefinement(cfg, p);
      SustainedStep(cfg, tr);
      forall s: nat { RunHoldsUnfolds(cfg, tr, s); }
      if OpensAt(cfg, tr, n) {
        assert OpenSince(cfg, tr, t, n);
      } else if !BreaksAt(cfg, tr, n) && r.runOpen {
        var s: nat :| OpenSince(cfg, p, r, s);
        RipeSinceUnfolds(cfg, tr, s);
        assert OpenSince(cfg, tr, t, s);
      }
    }
  }

  /** Two open runs are the same run. */
  lemma RunIsUnique(cfg: Config, tr: seq<Event>, s: nat, s': nat)
    requires RunHolds(cfg, tr, s) && RunHolds(cfg, tr, s')
    ensures s == s'
  {
    var lo, hi := if s < s' then s else s', if s < s' then s' else s;
    if lo < hi {
      StepsOfPrefix(cfg, tr, hi);
      assert forall j :: 0 <= j < hi ==> BreaksAt(cfg, tr[..hi], j) == BreaksAt(cfg, tr, j);
      assert RunHolds(cfg, tr[..hi], lo);
      HoldingConfirms(cfg, tr[..hi], lo);
    }
  }

  /** The run opened at `s` becomes due at the tick `k`: it is open, sight is not lost,
      and this is the first tick at which it has lasted for `sustain`. */
  predicate FallsDue(cfg: Config, tr: seq<Event>, s: nat, k: nat)
    requires k < |tr| && tr[k].TickAt?
  {
    && RunHolds(cfg, tr[..k], s)
    && !BlindsAt(cfg, tr, k)
    && tr[k].now - tr[s].o.at >= cfg.sustain
    && !RipeSince(cfg, tr[..k], s)
  }

  /** Exactly once: a tick reports a sustained rule if and only if it is the first one,
      and one at which sight is not lost, by which an open run has lasted long enough. */
  lemma ReportIff(cfg: Config, tr: seq<Event>, k: nat)
    requires Usable(cfg) && cfg.kind.Sustained? && k < |tr| && tr[k].TickAt?
    ensures ReportsAt(cfg, tr, k) <==> exists s: nat :: FallsDue(cfg, tr, s, k)
  {
    var p := tr[..k];
    var q := tr[..k + 1];
    assert Pre(q) == p && q[..k] == p;
    var r := Run(cfg, p).reaction;
    SustainedRefinement(cfg, p);
    SustainedStep(cfg, q);
    assert BlindsAt(cfg, q, k) == BlindsAt(cfg, tr, k);
    if s: nat :| FallsDue(cfg, tr, s, k) {
      var s': nat :| OpenSince(cfg, p, r, s');
      RunIsUnique(cfg, p, s, s');
    }
    if ReportsAt(cfg, tr, k) {
      var s: nat :| OpenSince(cfg, p, r, s);
      assert FallsDue(cfg, tr, s, k);
    }
  }

  /** A confirmation of the target while no run is open opens one exactly when something
      else was confirmed before it. */
  lemma OpensExactly(cfg: Config, tr: seq<Event>)
    requires Usable(cfg) && cfg.kind.Sustained? && tr != []
    requires ConfirmsAt(cfg, tr, |tr| - 1, cfg.target) && !Run(cfg, Pre(tr)).reaction.runOpen
    ensures Run(cfg, tr).reaction.runOpen <==> ConfirmedBy(cfg, Evidence(cfg, Pre(tr))) != cfg.target
  {
    SustainedRefinement(cfg, Pre(tr));
    SustainedStep(cfg, tr);
    assert tr[..|tr| - 1] == Pre(tr);
    assert !BlindsAt(cfg, tr, |tr| - 1);
  }

  function ExampleRule(): Config {
    Config("door", Kind.Sustained, Yes, 2, 0, 10, 5)
  }

  function ExampleRun(n: nat): seq<Event>
    requires n <= 5
  {
    [Seen(1, Yes), Seen(2, Yes), Seen(3, No), Seen(4, Yes), Seen(5, Yes)][..n]
  }

  /** A run broken by one contrary observation need not open again when the target has
      been confirmed anew: the confirmed value never left the target. */
  lemma BrokenRunMayStayBroken()
    ensures var cfg, tr := ExampleRule(), ExampleRun(5);
            && Usable(cfg)
            && Run(cfg, ExampleRun(2)).reaction.runOpen
            && ConfirmsAt(cfg, tr, 4, cfg.target)
            && !Run(cfg, tr).reaction.runOpen
  {
    var cfg := ExampleRule();
    forall n | 0 <= n < 5 ensures Pre(ExampleRun(n + 1)) == ExampleRun(n) {
    }
    assert ExampleRun(0) == [];
    assert Run(cfg, ExampleRun(0)) == ZERO;
    var s1 := Observe(cfg, ZERO, Observation(1, 1, Yes));
    assert Run(cfg, ExampleRun(1)) == s1;
    var s2 := Observe(cfg, s1, Observation(2, 2, Yes));
    assert Run(cfg, ExampleRun(2)) == s2;
    var s3 := Observe(cfg, s2, Observation(3, 3, No));
    assert Run(cfg, ExampleRun(3)) == s3;
    var s4 := Observe(cfg, s3, Observation(4, 4, Yes));
    assert Run(cfg, ExampleRun(4)) == s4;
    assert Run(cfg, ExampleRun(5)) == Observe(cfg, s4, Observation(5, 5, Yes));
    LastStep(cfg, ExampleRun(5));
  }
}
