/**
 The state query against the tick: `gw_get_state` reports, without changing
 anything, what ticking up to that moment would have made true.
 */
module Query {
  import opened Machine
  import opened Options
  import H = History
  import Appeared
  import Sustained

  function TickAll(cfg: Config, s: Runtime, nows: seq<int>): Runtime {
    if nows == [] then s else Tick(cfg, TickAll(cfg, s, nows[..|nows| - 1]), nows[|nows| - 1])
  }

  /** Everything a query reports except whether the rule has fired. */
  predicate SameBelief(v: RuleView, w: RuleView) {
    v == w.(fired := v.fired)
  }

  /** Either no tick lost sight and only the firing bits moved, or one did and a query at
      `now` finds the evidence expired as well. */
  predicate Matches(cfg: Config, s: Runtime, t: Runtime, now: int) {
    && t.seen == s.seen
    && (EvidenceExpired(cfg, s, now)
        || (t.confirmed == s.confirmed && t.candidate == s.candidate
            && t.reaction.runOpen == s.reaction.runOpen && t.reaction.runStart == s.reaction.runStart))
  }

  lemma {:induction false} TicksMatch(cfg: Config, s: Runtime, nows: seq<int>, now: int)
    requires forall i :: 0 <= i < |nows| ==> nows[i] <= now
    ensures Matches(cfg, s, TickAll(cfg, s, nows), now)
  {
    if nows != [] {
      TicksMatch(cfg, s, nows[..|nows| - 1], now);
    }
  }

  /** A query at `now` gives the same confirmed value, health, age, confirmations and
      sustained time whatever ticks up to `now` came since the last observation. */
  lemma QueryAgreesWithTicks(cfg: Config, s: Runtime, nows: seq<int>, now: int)
    requires forall i :: 0 <= i < |nows| ==> nows[i] <= now
    ensures SameBelief(View(cfg, s, now), View(cfg, TickAll(cfg, s, nows), now))
  {
    TicksMatch(cfg, s, nows, now);
  }

  /** What a query tells, in terms of the observations: how long ago the newest one was,
      what the evidence confirms, how many observations agree with that, and for how long
      a sustained rule's run has been open. */
  lemma ViewOfHistory(cfg: Config, tr: seq<H.Event>, now: int)
    requires Usable(cfg)
    ensures var v, a, e := View(cfg, H.Run(cfg, tr), now), H.Accepted(tr), H.Evidence(cfg, tr);
            && (v.age == if a == [] then None else Some(now - H.Last(a).at))
            && (v.health.Healthy? <==> a != [] && now - H.Last(a).at <= cfg.maxGap)
            && (v.health.Offline? <==> a == [] || now - H.Last(a).at > 10 * cfg.maxGap)
            && (v.confirmed == if H.Expiring(cfg, a, now) then Unknown else H.ConfirmedBy(cfg, e))
            && v.sustained >= 0 && (H.Expiring(cfg, a, now) ==> v.sustained == 0)
            && (v.confirmations ==
                  if H.Expiring(cfg, a, now) || e == [] || H.Last(e).value != v.confirmed then 0
                  else H.Min(|e| - H.RunStart(e), 4294967295))
  {
    H.HistoryRefinement(cfg, tr);
    hide H.Run, H.Accepted, H.Evidence, H.ConfirmedBy, H.RunStart;
  }

  /** A query finds a sustained rule's run under way for `d` exactly when a run opened `d`
      ago, was not broken, and sight is not lost. */
  lemma SustainedView(cfg: Config, tr: seq<H.Event>, now: int, d: int)
    requires Usable(cfg) && cfg.kind.Sustained? && d > 0
    ensures View(cfg, H.Run(cfg, tr), now).sustained == d <==>
            && !H.Expiring(cfg, H.Accepted(tr), now)
            && exists s: nat :: Sustained.RunHolds(cfg, tr, s) && now - tr[s].o.at == d
  {
    H.HistoryRefinement(cfg, tr);
    Sustained.SustainedRefinement(cfg, tr);
    var r := H.Run(cfg, tr).reaction;
    if s: nat :| Sustained.RunHolds(cfg, tr, s) && now - tr[s].o.at == d {
      var s': nat :| Sustained.OpenSince(cfg, tr, r, s');
      Sustained.RunIsUnique(cfg, tr, s, s');
    }
  }

  /** An appeared rule never has a run under way. */
  lemma {:induction false} AppearedNeverRuns(cfg: Config, tr: seq<H.Event>, now: int)
    requires cfg.kind.Appeared?
    ensures !H.Run(cfg, tr).reaction.runOpen && View(cfg, H.Run(cfg, tr), now).sustained == 0
  {
    if tr != [] {
      AppearedNeverRuns(cfg, H.Pre(tr), now);
    }
  }

  /** A query says of an appeared rule that it has fired exactly if an appearance was latched
      and the opposite was not confirmed, nor the rule restarted, since. */
  lemma AppearedFired(cfg: Config, tr: seq<H.Event>, now: int)
    requires Usable(cfg) && cfg.kind.Appeared?
    ensures View(cfg, H.Run(cfg, tr), now).fired <==> exists b: nat :: Appeared.FiredSince(cfg, tr, b)
  {
    Appeared.FiredIff(cfg, tr);
    hide H.Run;
  }

  /** A query says of a sustained rule that it has fired exactly if a run is open and some tick
      since found it to have lasted. */
  lemma SustainedFired(cfg: Config, tr: seq<H.Event>, now: int)
    requires Usable(cfg) && cfg.kind.Sustained?
    ensures View(cfg, H.Run(cfg, tr), now).fired <==>
            exists s: nat :: Sustained.RunHolds(cfg, tr, s) && Sustained.RipeSince(cfg, tr, s)
  {
    Sustained.SustainedRefinement(cfg, tr);
    hide H.Run, Sustained.RunHolds, Sustained.RipeSince;
    var r := H.Run(cfg, tr).reaction;
    if s: nat :| Sustained.RunHolds(cfg, tr, s) && Sustained.RipeSince(cfg, tr, s) {
      var s': nat :| Sustained.OpenSince(cfg, tr, r, s');
      Sustained.RunIsUnique(cfg, tr, s, s');
    }
  }
}
