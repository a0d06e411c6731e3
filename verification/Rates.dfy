/**
 Where evidence comes from in a run, how far apart its observations can be, and how
 often a rule can speak at all.
 */
module Rates {
  import opened Machine
  import opened History
  import Appeared
  import Sustained

  /** How many observations the steps from `p` up to `q` accept. */
  function AcceptCount(tr: seq<Event>, p: nat, q: nat): nat
    requires p <= q <= |tr|
  {
    if p == q then 0 else AcceptCount(tr, p, q - 1) + if AcceptsAt(tr, q - 1) then 1 else 0
  }

  lemma {:induction false} AcceptCountSplits(tr: seq<Event>, p: nat, m: nat, q: nat)
    requires p <= m <= q <= |tr|
    ensures AcceptCount(tr, p, q) == AcceptCount(tr, p, m) + AcceptCount(tr, m, q)
  {
    if m < q {
      AcceptCountSplits(tr, p, m, q - 1);
    }
  }

  lemma {:induction false} AcceptCountOfPrefix(tr: seq<Event>, n: nat, p: nat, q: nat)
    requires p <= q <= n <= |tr|
    ensures AcceptCount(tr[..n], p, q) == AcceptCount(tr, p, q)
  {
    if p < q {
      AcceptCountOfPrefix(tr, n, p, q - 1);
      assert tr[..n][..q - 1] == tr[..q - 1];
    }
  }

  /** Every piece of evidence was accepted at some step, sight was not lost from there
      on, and what was accepted from there on is exactly the evidence that follows. */
  lemma {:induction false} EvidencePosition(cfg: Config, tr: seq<Event>, i: nat) returns (b: nat)
    requires i < |Evidence(cfg, tr)|
    ensures b < |tr| && AcceptsAt(tr, b) && tr[b].o == Evidence(cfg, tr)[i]
    ensures AcceptCount(tr, b, |tr|) == |Evidence(cfg, tr)| - i
    ensures forall j :: b <= j < |tr| ==> !BlindsAt(cfg, tr, j)
    ensures forall j :: b <= j < |tr| && AcceptsAt(tr, j) ==> tr[j].o in Evidence(cfg, tr)[i..]
  {
    hide Run, Step, ConfirmedBy, Suffices, ConfirmsAt, ObserveStatus, EvidenceExpired;
    var p, n, e := Pre(tr), |tr| - 1, Evidence(cfg, tr);
    LastStep(cfg, tr);
    hide Evidence, Accepted;
    if AcceptsAt(tr, n) && i == |e| - 1 {
      b := n;
    } else {
      b := EvidencePosition(cfg, p, i);
      StepsOfPrefix(cfg, tr, n);
      AcceptCountOfPrefix(tr, n, b, n);
      assert AcceptsAt(tr, n) ==> e[i..] == Evidence(cfg, p)[i..] + [tr[n].o];
    }
  }

  /** What a confirmation at step `s` rests on: from some step `b` on, at least the
      confirmation window earlier, every accepted observation has the value, there are
      at least the required number of them, and sight was never lost. */
  lemma ConfirmingRun(cfg: Config, tr: seq<Event>, s: nat, v: Value) returns (b: nat)
    requires s < |tr| && ConfirmsAt(cfg, tr, s, v)
    ensures b <= s && AcceptsAt(tr, b)
    ensures tr[s].o.at - tr[b].o.at >= cfg.confirmWindow
    ensures AcceptCount(tr, b, s + 1) >= cfg.confirmCount
    ensures forall j :: b <= j <= s ==> !BlindsAt(cfg, tr, j)
    ensures forall j :: b <= j <= s && AcceptsAt(tr, j) ==> tr[j].o.value == v
  {
    var q := tr[..s + 1];
    var e := Evidence(cfg, q);
    assert Pre(q) == tr[..s] && e == Evidence(cfg, tr[..s]) + [tr[s].o];
    b := EvidencePosition(cfg, q, RunStart(e));
    StepsOfPrefix(cfg, tr, s + 1);
    AcceptCountOfPrefix(tr, s + 1, b, s + 1);
    forall j | b <= j <= s
      ensures !BlindsAt(cfg, tr, j) && (AcceptsAt(tr, j) ==> tr[j].o.value == v)
    {
      assert BlindsAt(cfg, q, j) == BlindsAt(cfg, tr, j) && AcceptsAt(q, j) == AcceptsAt(tr, j);
    }
  }

  /** Every reported sustained event has an observation at step `s` confirming the
      target, at least `sustain` before the tick.  The candidate run of that observation
      began at step `b`, at least the confirmation window earlier, with at least the
      required number of observations up to `s`.  From `b` until the tick every accepted
      observation is the target and sight was never lost. */
  lemma SustainedSound(cfg: Config, tr: seq<Event>, k: nat) returns (b: nat, s: nat)
    requires Usable(cfg) && cfg.kind.Sustained? && k < |tr| && ReportsAt(cfg, tr, k)
    ensures b <= s < k && AcceptsAt(tr, b) && ConfirmsAt(cfg, tr, s, cfg.target)
    ensures Sustained.FallsDue(cfg, tr, s, k) && tr[k].now - tr[s].o.at >= cfg.sustain
    ensures tr[s].o.at - tr[b].o.at >= cfg.confirmWindow
    ensures AcceptCount(tr, b, s + 1) >= cfg.confirmCount
    ensures forall j :: b <= j < k ==> !Sustained.BreaksAt(cfg, tr, j)
    ensures !BlindsAt(cfg, tr, k)
  {
    Sustained.ReportIff(cfg, tr, k);
    s :| Sustained.FallsDue(cfg, tr, s, k);
    StepsOfPrefix(cfg, tr, k);
    b := ConfirmingRun(cfg, tr, s, cfg.target);
    forall j | s < j < k ensures !Sustained.BreaksAt(cfg, tr, j) {
      assert !Sustained.BreaksAt(cfg, tr[..k], j);
    }
  }

  /** What it means for a run to fall due, in terms of the whole of `tr`. */
  lemma DueRun(cfg: Config, tr: seq<Event>, s: nat, k: nat)
    requires k < |tr| && tr[k].TickAt? && Sustained.FallsDue(cfg, tr, s, k)
    ensures s < k && tr[s].Obs? && Sustained.OpensAt(cfg, tr, s) && tr[s].o.at + cfg.sustain <= tr[k].now
    ensures forall j :: s < j < k && tr[j].TickAt? ==> tr[j].now < tr[s].o.at + cfg.sustain
  {
    StepsOfPrefix(cfg, tr, k);
    hide Evidence, Accepted, Confirms, ConfirmedBy;
    forall j | s < j < k && tr[j].TickAt? ensures tr[j].now < tr[s].o.at + cfg.sustain {
      assert !Sustained.RipeAt(cfg, tr[..k], s, j);
    }
  }

  // ---------------------------------------------------------------- rates

  /** Observation times never decrease along the run. */
  predicate TimeOrdered(tr: seq<Event>) {
    forall i, j :: 0 <= i < j < |tr| && tr[i].Obs? && tr[j].Obs? ==> tr[i].o.at <= tr[j].o.at
  }

  /** A confirmation of `v` at `s` after a step `p` at which the evidence did not end in
      `v` rests on observations accepted after `p` alone. */
  lemma ConfirmedAfresh(cfg: Config, tr: seq<Event>, p: nat, s: nat, v: Value) returns (b: nat)
    requires p < s < |tr| && ConfirmsAt(cfg, tr, s, v)
    requires AcceptsAt(tr, p) && tr[p].o.value != v
    ensures p < b <= s && AcceptsAt(tr, b)
    ensures tr[s].o.at - tr[b].o.at >= cfg.confirmWindow
    ensures AcceptCount(tr, p + 1, s + 1) >= cfg.confirmCount
  {
    b := ConfirmingRun(cfg, tr, s, v);
    AcceptCountSplits(tr, p + 1, b, s + 1);
  }

  /** Between two latched appearances the opposite of the target was confirmed. */
  lemma AbsenceBetween(cfg: Config, tr: seq<Event>, k1: nat, k2: nat) returns (a: nat)
    requires Usable(cfg) && cfg.kind.Appeared?
    requires k1 < k2 < |tr| && Appeared.LatchesAt(cfg, tr, k1) && Appeared.LatchesAt(cfg, tr, k2)
    ensures k1 < a < k2 && ConfirmsAt(cfg, tr, a, OppositeOf(cfg.target))
    ensures ConfirmsAt(cfg, tr, k1, cfg.target) && ConfirmsAt(cfg, tr, k2, cfg.target)
  {
    var a1 := Appeared.LatchSound(cfg, tr, k1);
    a := Appeared.LatchSound(cfg, tr, k2);
  }

  /** The two full confirming runs that lie between two latched appearances. */
  lemma RunsBetween(cfg: Config, tr: seq<Event>, k1: nat, k2: nat) returns (b: nat, a: nat, c: nat)
    requires Usable(cfg) && cfg.kind.Appeared?
    requires k1 < k2 < |tr| && Appeared.LatchesAt(cfg, tr, k1) && Appeared.LatchesAt(cfg, tr, k2)
    ensures k1 < b <= a < c <= k2
    ensures tr[k1].Obs? && tr[b].Obs? && tr[a].Obs? && tr[c].Obs? && tr[k2].Obs?
    ensures tr[a].o.at - tr[b].o.at >= cfg.confirmWindow
    ensures tr[k2].o.at - tr[c].o.at >= cfg.confirmWindow
    ensures AcceptCount(tr, k1 + 1, k2 + 1) >= 2 * cfg.confirmCount
  {
    a := AbsenceBetween(cfg, tr, k1, k2);
    b := ConfirmedAfresh(cfg, tr, k1, a, OppositeOf(cfg.target));
    c := ConfirmedAfresh(cfg, tr, a, k2, cfg.target);
    AcceptCountSplits(tr, k1 + 1, a + 1, k2 + 1);
  }

  /** Two latched appearances of one rule complete at observations at least twice the
      confirmation window apart, with at least twice the required number of accepted
      observations after the first up to and including the second, whatever ticks and
      restarts lie in between. */
  lemma AppearanceRate(cfg: Config, tr: seq<Event>, k1: nat, k2: nat)
    requires Usable(cfg) && cfg.kind.Appeared? && TimeOrdered(tr)
    requires k1 < k2 < |tr| && Appeared.LatchesAt(cfg, tr, k1) && Appeared.LatchesAt(cfg, tr, k2)
    ensures tr[k2].o.at - tr[k1].o.at >= 2 * cfg.confirmWindow
    ensures AcceptCount(tr, k1 + 1, k2 + 1) >= 2 * cfg.confirmCount
  {
    var b, a, c := RunsBetween(cfg, tr, k1, k2);
  }

  /** Observations that come after a tick were captured after it. */
  predicate CapturedAfterTicks(tr: seq<Event>) {
    forall i, j :: 0 <= i < j < |tr| && tr[i].TickAt? && tr[j].Obs? ==> tr[i].now < tr[j].o.at
  }

  /** The run reported at `k2` rests on observations accepted after the report at `k1`. */
  lemma RunOpenedAfresh(cfg: Config, tr: seq<Event>, k1: nat, k2: nat) returns (b: nat, s: nat)
    requires Usable(cfg) && cfg.kind.Sustained?
    requires k1 < k2 < |tr| && ReportsAt(cfg, tr, k1) && ReportsAt(cfg, tr, k2)
    ensures k1 < b <= s < k2 && AcceptsAt(tr, b) && AcceptsAt(tr, s)
    ensures tr[s].o.at - tr[b].o.at >= cfg.confirmWindow
    ensures tr[k2].now - tr[s].o.at >= cfg.sustain
  {
    Sustained.ReportIff(cfg, tr, k1);
    Sustained.ReportIff(cfg, tr, k2);
    var s1: nat :| Sustained.FallsDue(cfg, tr, s1, k1);
    s :| Sustained.FallsDue(cfg, tr, s, k2);
    LaterRun(cfg, tr, k1, k2, s1, s);
    StepsOfPrefix(cfg, tr, k2);
    assert Sustained.OpensAt(cfg, tr, s);
    b := ConfirmingRun(cfg, tr, s, cfg.target);
    if b <= k1 {
      RunSurvives(cfg, tr, k1, s, b, s1);
      assert false;
    }
  }

  /** The second report belongs to a run opened after the first report. */
  lemma LaterRun(cfg: Config, tr: seq<Event>, k1: nat, k2: nat, s1: nat, s2: nat)
    requires k1 < k2 < |tr| && tr[k1].TickAt? && tr[k2].TickAt?
    requires Sustained.FallsDue(cfg, tr, s1, k1) && Sustained.FallsDue(cfg, tr, s2, k2)
    ensures k1 < s2
  {
    StepsOfPrefix(cfg, tr, k2);
    assert tr[s2].Obs?;
    if s2 < k1 {
      HoldsEarlier(cfg, tr, s2, k1, k2);
      Sustained.RunIsUnique(cfg, tr[..k1], s1, s2);
      assert Sustained.RipeAt(cfg, tr[..k2], s1, k1);
    }
  }

  lemma HoldsEarlier(cfg: Config, tr: seq<Event>, s: nat, n: nat, m: nat)
    requires s < n <= m <= |tr| && Sustained.RunHolds(cfg, tr[..m], s)
    ensures Sustained.RunHolds(cfg, tr[..n], s)
  {
    StepsOfPrefix(cfg, tr, n);
    StepsOfPrefix(cfg, tr, m);
    forall j | s < j < n ensures !Sustained.BreaksAt(cfg, tr[..n], j) {
      assert !Sustained.BreaksAt(cfg, tr[..m], j);
    }
  }

  /** A run reported at `k1` would still be open at `s`, had the candidate run confirming
      the target at `s` begun by then; so `s` would open nothing. */
  lemma RunSurvives(cfg: Config, tr: seq<Event>, k1: nat, s: nat, b: nat, s1: nat)
    requires k1 < s < |tr| && tr[k1].TickAt? && Sustained.FallsDue(cfg, tr, s1, k1)
    requires b <= k1 && forall j :: b <= j < s ==> !Sustained.BreaksAt(cfg, tr, j)
    ensures !Sustained.OpensAt(cfg, tr, s)
  {
    StepsOfPrefix(cfg, tr, k1);
    StepsOfPrefix(cfg, tr, s);
    forall j | s1 < j < s ensures !Sustained.BreaksAt(cfg, tr[..s], j) {
      if j < k1 {
        assert !Sustained.BreaksAt(cfg, tr[..k1], j);
      } else {
        assert !Sustained.BreaksAt(cfg, tr, j);
      }
    }
    assert Sustained.RunHolds(cfg, tr[..s], s1);
    Sustained.HoldingConfirms(cfg, tr[..s], s1);
  }

  /** A sustained rule reports again only after the confirmed value has left its target. */
  lemma ReportsNeedDoubt(cfg: Config, tr: seq<Event>, k1: nat, k2: nat) returns (j: nat)
    requires Usable(cfg) && cfg.kind.Sustained?
    requires k1 < k2 < |tr| && ReportsAt(cfg, tr, k1) && ReportsAt(cfg, tr, k2)
    ensures k1 < j < k2 && ConfirmedBy(cfg, Evidence(cfg, tr[..j])) != cfg.target
  {
    Sustained.ReportIff(cfg, tr, k1);
    Sustained.ReportIff(cfg, tr, k2);
    var s1: nat :| Sustained.FallsDue(cfg, tr, s1, k1);
    j :| Sustained.FallsDue(cfg, tr, j, k2);
    LaterRun(cfg, tr, k1, k2, s1, j);
    StepsOfPrefix(cfg, tr, k2);
    assert Sustained.OpensAt(cfg, tr[..k2], j);
  }

  /** Two reports of one sustained rule are more than the sustain duration and the
      confirmation window apart. */
  lemma SustainedRate(cfg: Config, tr: seq<Event>, k1: nat, k2: nat)
    requires Usable(cfg) && cfg.kind.Sustained? && CapturedAfterTicks(tr)
    requires k1 < k2 < |tr| && ReportsAt(cfg, tr, k1) && ReportsAt(cfg, tr, k2)
    ensures tr[k2].now - tr[k1].now > cfg.sustain + cfg.confirmWindow
  {
    var b, s := RunOpenedAfresh(cfg, tr, k1, k2);
  }

  // ---------------------------------------------------------------- gaps

  /** If the observations at `p` and `q` are more than `period` apart, there is a tick
      between them at most `period` before the later one. */
  predicate TickBetween(tr: seq<Event>, period: int, p: nat, q: nat)
    requires p < q < |tr| && tr[p].Obs? && tr[q].Obs?
  {
    || tr[q].o.at - tr[p].o.at <= period
    || exists j :: p < j < q && tr[j].TickAt? && tr[q].o.at - tr[j].now <= period
  }

  predicate Cadenced(tr: seq<Event>, period: int) {
    forall p, q :: 0 <= p < q < |tr| && tr[p].Obs? && tr[q].Obs? ==> TickBetween(tr, period, p, q)
  }

  /** The observation accepted at `p` stays the newest one until something else is accepted. */
  lemma {:induction false} StaysNewest(tr: seq<Event>, p: nat, n: nat)
    requires p < n <= |tr| && AcceptsAt(tr, p)
    requires forall j :: p < j < n ==> !AcceptsAt(tr, j) && !tr[j].Restart?
    ensures Accepted(tr[..n]) != [] && Last(Accepted(tr[..n])) == tr[p].o
  {
    assert Pre(tr[..n]) == tr[..n - 1];
    if p < n - 1 {
      StaysNewest(tr, p, n - 1);
    }
  }

  /** A tick that does not lose sight is at most `max_gap` after the newest observation. */
  lemma NotLate(cfg: Config, tr: seq<Event>, p: nat, j: nat)
    requires p < j < |tr| && AcceptsAt(tr, p) && tr[j].TickAt? && !BlindsAt(cfg, tr, j)
    requires forall i :: p < i < j ==> !AcceptsAt(tr, i) && !tr[i].Restart?
    ensures tr[j].now - tr[p].o.at <= cfg.maxGap
  {
    StaysNewest(tr, p, j);
  }

  /** Step `j` is a restart, or a tick that comes more than `max_gap` after the observation at `p`. */
  predicate LateAt(cfg: Config, tr: seq<Event>, p: nat, j: nat)
    requires p < j < |tr| && tr[p].Obs?
  {
    tr[j].Restart? || (tr[j].TickAt? && tr[j].now - tr[p].o.at > cfg.maxGap)
  }

  lemma LateBlinds(cfg: Config, tr: seq<Event>, p: nat, j: nat)
    requires p < j < |tr| && AcceptsAt(tr, p)
    requires forall i :: p < i < j ==> !AcceptsAt(tr, i) && !tr[i].Restart?
    ensures BlindsAt(cfg, tr, j) <==> LateAt(cfg, tr, p, j)
  {
    StaysNewest(tr, p, j);
  }

  /** Between two observations with none accepted in between, sight is lost exactly when
      there is a restart or a tick more than `max_gap` after the first one.  How far apart
      the observations are does not matter. */
  lemma LostExactly(cfg: Config, tr: seq<Event>, p: nat, q: nat)
    requires p < q <= |tr| && AcceptsAt(tr, p)
    requires forall j :: p < j < q ==> !AcceptsAt(tr, j)
    ensures (exists j :: p < j < q && BlindsAt(cfg, tr, j)) <==> exists j :: p < j < q && LateAt(cfg, tr, p, j)
  {
    if r :| p < r < q && tr[r].Restart? {
      assert BlindsAt(cfg, tr, r) && LateAt(cfg, tr, p, r);
    } else {
      forall j | p < j < q ensures BlindsAt(cfg, tr, j) <==> LateAt(cfg, tr, p, j) {
        LateBlinds(cfg, tr, p, j);
      }
    }
  }

  /** Two observations accepted one after the other, with sight not lost in between, are
      at most `max_gap` plus one tick period apart (not `max_gap`: an observation is
      delivered before the tick that would have noticed it is late). */
  lemma GapBound(cfg: Config, tr: seq<Event>, period: int, p: nat, q: nat)
    requires Usable(cfg) && p < q < |tr| && AcceptsAt(tr, p) && AcceptsAt(tr, q)
    requires TickBetween(tr, period, p, q)
    requires forall j :: p < j < q ==> !AcceptsAt(tr, j) && !BlindsAt(cfg, tr, j)
    ensures tr[q].o.at - tr[p].o.at <= cfg.maxGap + period
  {
    if tr[q].o.at - tr[p].o.at > period {
      var j :| p < j < q && tr[j].TickAt? && tr[q].o.at - tr[j].now <= period;
      forall i | p < i < j ensures !AcceptsAt(tr, i) && !tr[i].Restart? {
        assert !BlindsAt(cfg, tr, i);
      }
      NotLate(cfg, tr, p, j);
    }
  }
}
