/**
 What an "appeared" rule latches and reports, in terms of the observations alone.

 The machine keeps three bits (`armed`, `fired`, `pending`) and edges of the
 confirmed value.  Read back through the history: a rule is armed exactly when the
 opposite of its target was confirmed and since then neither was the target
 confirmed nor sight lost; it latches exactly when the target is confirmed while
 armed; and a tick reports it exactly when it latched since the tick before.
 */
module Appeared {
  import opened Machine
  import opened History

  /** Step `a` confirmed the opposite of the target, and nothing disarmed the rule since. */
  predicate ArmedBy(cfg: Config, tr: seq<Event>, a: nat) {
    && a < |tr|
    && ConfirmsAt(cfg, tr, a, OppositeOf(cfg.target))
    && forall j :: a < j < |tr| ==> !ConfirmsAt(cfg, tr, j, cfg.target) && !BlindsAt(cfg, tr, j)
  }

  /** Step `k` is where the machine disarms itself by latching an appearance. */
  predicate LatchesAt(cfg: Config, tr: seq<Event>, k: nat)
    requires k < |tr|
  {
    tr[k].Obs? && Run(cfg, tr[..k]).reaction.armed && !Run(cfg, tr[..k + 1]).reaction.armed
  }

  lemma ArmedByUnfolds(cfg: Config, tr: seq<Event>)
    requires tr != []
    ensures (exists a: nat :: ArmedBy(cfg, tr, a)) <==>
            || ConfirmsAt(cfg, tr, |tr| - 1, OppositeOf(cfg.target))
            || ((exists a: nat :: ArmedBy(cfg, Pre(tr), a))
                && !ConfirmsAt(cfg, tr, |tr| - 1, cfg.target) && !BlindsAt(cfg, tr, |tr| - 1))
  {
    var n := |tr| - 1;
    StepsOfPrefix(cfg, tr, n);
    hide ConfirmsAt, BlindsAt, AcceptsAt;
    if ConfirmsAt(cfg, tr, n, OppositeOf(cfg.target)) {
      assert ArmedBy(cfg, tr, n);
    }
    if a: nat :| ArmedBy(cfg, Pre(tr), a) && !ConfirmsAt(cfg, tr, n, cfg.target) && !BlindsAt(cfg, tr, n) {
      assert ArmedBy(cfg, tr, a);
    }
    if a: nat :| ArmedBy(cfg, tr, a) && a < n {
      assert ArmedBy(cfg, Pre(tr), a);
    }
  }

  /** One step of the machine, with its confirmations read from the history. */
  lemma ArmedStep(cfg: Config, tr: seq<Event>)
    requires Usable(cfg) && cfg.kind.Appeared? && tr != []
    requires var s := Run(cfg, Pre(tr));
             (s.reaction.armed ==> s.confirmed != cfg.target)
             && (s.confirmed == OppositeOf(cfg.target) ==> s.reaction.armed)
    ensures var s, t, k := Run(cfg, Pre(tr)), Run(cfg, tr), |tr| - 1;
            && (t.reaction.armed ==> t.confirmed != cfg.target)
            && (t.confirmed == OppositeOf(cfg.target) ==> t.reaction.armed)
            && (t.reaction.armed <==>
                  || ConfirmsAt(cfg, tr, k, OppositeOf(cfg.target))
                  || (s.reaction.armed && !ConfirmsAt(cfg, tr, k, cfg.target) && !BlindsAt(cfg, tr, k)))
            && (t.reaction.pending <==>
                  tr[k].Obs? && (s.reaction.pending || (s.reaction.armed && !t.reaction.armed)))
  {
    LastStep(cfg, tr);
  }

  lemma {:induction false} ArmedIff(cfg: Config, tr: seq<Event>)
    requires Usable(cfg) && cfg.kind.Appeared?
    ensures var s := Run(cfg, tr);
            && (s.reaction.armed <==> exists a: nat :: ArmedBy(cfg, tr, a))
            && (s.reaction.armed ==> s.confirmed != cfg.target)
            && (s.confirmed == OppositeOf(cfg.target) ==> s.reaction.armed)
  {
    if tr != [] {
      ArmedIff(cfg, Pre(tr));
      ArmedByUnfolds(cfg, tr);
      ArmedStep(cfg, tr);
    }
  }

  /** An appearance is latched exactly where the target is confirmed after its
      opposite, with no expiring tick, restart or earlier confirmation of the target
      in between. */
  lemma LatchIff(cfg: Config, tr: seq<Event>, k: nat)
    requires Usable(cfg) && cfg.kind.Appeared? && k < |tr|
    ensures LatchesAt(cfg, tr, k) <==>
            ConfirmsAt(cfg, tr, k, cfg.target) && exists a: nat :: ArmedBy(cfg, tr[..k], a)
  {
    var p := tr[..k + 1];
    assert Pre(p) == tr[..k] && p[..k] == tr[..k];
    ArmedIff(cfg, tr[..k]);
    ArmedStep(cfg, p);
  }

  /** An appearance latched at `b` that no tick has drained and no restart has dropped. */
  predicate PendingSince(cfg: Config, tr: seq<Event>, b: nat) {
    && b < |tr|
    && LatchesAt(cfg, tr, b)
    && forall j :: b < j < |tr| ==> tr[j].Obs?
  }

  lemma PendingUnfolds(cfg: Config, tr: seq<Event>)
    requires tr != []
    ensures (exists b: nat :: PendingSince(cfg, tr, b)) <==>
            Last(tr).Obs? && (LatchesAt(cfg, tr, |tr| - 1) || exists b: nat :: PendingSince(cfg, Pre(tr), b))
  {
    var p, n := Pre(tr), |tr| - 1;
    forall b | 0 <= b < n ensures LatchesAt(cfg, p, b) == LatchesAt(cfg, tr, b) {
      assert p[..b] == tr[..b] && p[..b + 1] == tr[..b + 1];
    }
    if LatchesAt(cfg, tr, n) {
      assert PendingSince(cfg, tr, n);
    }
    if b: nat :| PendingSince(cfg, p, b) && tr[n].Obs? {
      assert PendingSince(cfg, tr, b);
    }
    if b: nat :| PendingSince(cfg, tr, b) && b < n {
      assert PendingSince(cfg, p, b);
    }
  }

  lemma {:induction false} PendingIff(cfg: Config, tr: seq<Event>)
    requires Usable(cfg) && cfg.kind.Appeared?
    ensures Run(cfg, tr).reaction.pending <==> exists b: nat :: PendingSince(cfg, tr, b)
  {
    if tr != [] {
      PendingIff(cfg, Pre(tr));
      ArmedIff(cfg, Pre(tr));
      ArmedStep(cfg, tr);
      PendingUnfolds(cfg, tr);
      assert tr[..|tr|] == tr;
    }
  }

  /** Exactly once: a tick reports an appeared rule if and only if the rule latched
      since the tick (or restart) before.  Two appearances latched between two ticks
      are one report. */
  lemma ReportIff(cfg: Config, tr: seq<Event>, k: nat)
    requires Usable(cfg) && cfg.kind.Appeared? && k < |tr| && tr[k].TickAt?
    ensures ReportsAt(cfg, tr, k) <==> exists b: nat :: PendingSince(cfg, tr[..k], b)
  {
    PendingIff(cfg, tr[..k]);
  }

  /** An appearance latched at `b`, with the opposite not confirmed again and no restart since. */
  predicate FiredSince(cfg: Config, tr: seq<Event>, b: nat) {
    && b < |tr|
    && LatchesAt(cfg, tr, b)
    && forall j :: b < j < |tr| ==> !ConfirmsAt(cfg, tr, j, OppositeOf(cfg.target)) && !tr[j].Restart?
  }

  lemma FiredUnfolds(cfg: Config, tr: seq<Event>)
    requires tr != []
    ensures (exists b: nat :: FiredSince(cfg, tr, b)) <==>
            || LatchesAt(cfg, tr, |tr| - 1)
            || ((exists b: nat :: FiredSince(cfg, Pre(tr), b))
                && !ConfirmsAt(cfg, tr, |tr| - 1, OppositeOf(cfg.target)) && !Last(tr).Restart?)
  {
    hide Run, ConfirmsAt;
    var p, n := Pre(tr), |tr| - 1;
    StepsOfPrefix(cfg, tr, n);
    forall b | 0 <= b < n ensures LatchesAt(cfg, p, b) == LatchesAt(cfg, tr, b) {
      assert p[..b] == tr[..b] && p[..b + 1] == tr[..b + 1];
    }
    hide LatchesAt;
    if LatchesAt(cfg, tr, n) {
      assert FiredSince(cfg, tr, n);
    }
    if b: nat :| FiredSince(cfg, p, b) && !ConfirmsAt(cfg, tr, n, OppositeOf(cfg.target)) && !tr[n].Restart? {
      assert FiredSince(cfg, tr, b);
    }
    if b: nat :| FiredSince(cfg, tr, b) && b < n {
      assert FiredSince(cfg, p, b);
    }
  }

  lemma FiredStep(cfg: Config, tr: seq<Event>)
    requires Usable(cfg) && cfg.kind.Appeared? && tr != []
    requires var s := Run(cfg, Pre(tr));
             (s.confirmed == OppositeOf(cfg.target) ==> s.reaction.armed && !s.reaction.fired)
    ensures var s, t, k := Run(cfg, Pre(tr)), Run(cfg, tr), |tr| - 1;
            && (t.confirmed == OppositeOf(cfg.target) ==> !t.reaction.fired)
            && (t.reaction.fired <==>
                  || LatchesAt(cfg, tr, k)
                  || (s.reaction.fired && !ConfirmsAt(cfg, tr, k, OppositeOf(cfg.target)) && !tr[k].Restart?))
  {
    LastStep(cfg, tr);
    assert tr[..|tr|] == tr;
    hide Run, Accepted, Evidence, ConfirmedBy, Confirms;
    hide ConfirmsAt, AcceptsAt, BlindsAt, Accumulate, Suffices, EvidenceExpired;
  }

  /** `fired` outlives ticks, and even lost sight: it says that an appearance was latched
      and the opposite has not been confirmed since. */
  lemma {:induction false} FiredIff(cfg: Config, tr: seq<Event>)
    requires Usable(cfg) && cfg.kind.Appeared?
    ensures var s := Run(cfg, tr);
            && (s.reaction.fired <==> exists b: nat :: FiredSince(cfg, tr, b))
            && (s.confirmed == OppositeOf(cfg.target) ==> !s.reaction.fired)
  {
    if tr != [] {
      FiredIff(cfg, Pre(tr));
      ArmedIff(cfg, Pre(tr));
      FiredStep(cfg, tr);
      FiredUnfolds(cfg, tr);
    }
  }

  /** Every latched appearance is witnessed by a full confirming run of the opposite
      value completed at `a`, with sight not lost and nothing else latched since. */
  lemma LatchSound(cfg: Config, tr: seq<Event>, b: nat) returns (a: nat)
    requires Usable(cfg) && cfg.kind.Appeared? && b < |tr| && LatchesAt(cfg, tr, b)
    ensures a < b
    ensures ConfirmsAt(cfg, tr, a, OppositeOf(cfg.target)) && ConfirmsAt(cfg, tr, b, cfg.target)
    ensures forall j :: a < j < b ==>
              !BlindsAt(cfg, tr, j) && !ConfirmsAt(cfg, tr, j, cfg.target) && !LatchesAt(cfg, tr, j)
  {
    LatchIff(cfg, tr, b);
    a :| ArmedBy(cfg, tr[..b], a);
    StepsOfPrefix(cfg, tr, b);
    forall j | a < j < b
      ensures !BlindsAt(cfg, tr, j) && !ConfirmsAt(cfg, tr, j, cfg.target) && !LatchesAt(cfg, tr, j)
    {
      assert !ConfirmsAt(cfg, tr[..b], j, cfg.target) && !BlindsAt(cfg, tr[..b], j);
      LatchIff(cfg, tr, j);
    }
  }

  /** Where the opposite and later the target are confirmed, with sight not lost in between,
      an appearance is latched. */
  lemma {:induction false} LatchBetween(cfg: Config, tr: seq<Event>, a: nat, b: nat) returns (k: nat)
    requires Usable(cfg) && cfg.kind.Appeared? && a < b < |tr|
    requires ConfirmsAt(cfg, tr, a, OppositeOf(cfg.target)) && ConfirmsAt(cfg, tr, b, cfg.target)
    requires forall j :: a < j < b ==> !BlindsAt(cfg, tr, j)
    ensures a < k <= b && LatchesAt(cfg, tr, k)
    decreases b
  {
    k := b;
    if j :| a < j < b && ConfirmsAt(cfg, tr, j, cfg.target) {
      k := LatchBetween(cfg, tr, a, j);
    } else {
      StepsOfPrefix(cfg, tr, b);
      hide ConfirmsAt, BlindsAt;
      assert ArmedBy(cfg, tr[..b], a);
      LatchIff(cfg, tr, b);
    }
  }

  /** Every reported appearance is a latched one, witnessed by a full confirming run
      of the opposite value completed at `a`, then a full confirming run of the target
      completed at `b`. */
  lemma AppearedSound(cfg: Config, tr: seq<Event>, k: nat) returns (a: nat, b: nat)
    requires Usable(cfg) && cfg.kind.Appeared? && k < |tr| && ReportsAt(cfg, tr, k)
    ensures a < b < k && LatchesAt(cfg, tr, b)
    ensures ConfirmsAt(cfg, tr, a, OppositeOf(cfg.target)) && ConfirmsAt(cfg, tr, b, cfg.target)
    ensures forall j :: a < j < b ==> !BlindsAt(cfg, tr, j) && !LatchesAt(cfg, tr, j)
    ensures forall j :: b < j < k ==> tr[j].Obs?
  {
    ReportIff(cfg, tr, k);
    b :| PendingSince(cfg, tr[..k], b);
    assert tr[..k][..b] == tr[..b] && tr[..k][..b + 1] == tr[..b + 1];
    a := LatchSound(cfg, tr, b);
  }

  /** A rule that starts up on its target never fires before the opposite is confirmed. */
  lemma SilentUntilAbsence(cfg: Config, tr: seq<Event>)
    requires Usable(cfg) && cfg.kind.Appeared?
    requires forall j :: 0 <= j < |tr| ==> !ConfirmsAt(cfg, tr, j, OppositeOf(cfg.target))
    ensures forall k :: 0 <= k < |tr| ==> !ReportsAt(cfg, tr, k) && !LatchesAt(cfg, tr, k)
  {
    forall k | 0 <= k < |tr| ensures !ReportsAt(cfg, tr, k) && !LatchesAt(cfg, tr, k) {
      StepsOfPrefix(cfg, tr, k);
      if ReportsAt(cfg, tr, k) {
        var a, b := AppearedSound(cfg, tr, k);
      }
      LatchIff(cfg, tr, k);
    }
  }
}
