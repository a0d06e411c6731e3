/**
 The watch as src/gw_state.c keeps it: objects whose fields the API changes in place.

 A `Watch` owns its rules.  Its ghost `history` lists what it was told, and `Valid`
 ties every rule to the run of its own part of that history, so whatever is proved of
 runs (modules `History`, `Appeared`, `Sustained`, `Rates`) holds of every reachable
 watch, rule by rule.
 */
module Watching {
  import opened Machine
  import opened Options
  import H = History

  /** What a watch can be told.  Refused ticks are not part of a history. */
  datatype WatchEvent = ObsOf(rule: nat, o: Observation) | TickAll(now: int) | RestartAll

  function EventFor(e: WatchEvent, rule: nat): seq<H.Event> {
    match e
    case ObsOf(r, o) => if r == rule then [H.Obs(o)] else []
    case TickAll(now) => [H.TickAt(now)]
    case RestartAll => [H.Restart]
  }

  /** The part of a watch's history that concerns one rule. */
  function Project(tr: seq<WatchEvent>, rule: nat): seq<H.Event> {
    if tr == [] then [] else Project(H.Pre(tr), rule) + EventFor(H.Last(tr), rule)
  }

  function RunOf(cfg: Config, tr: seq<WatchEvent>, rule: nat): Runtime {
    H.Run(cfg, Project(tr, rule))
  }

  lemma ProjectAppends(tr: seq<WatchEvent>, e: WatchEvent, rule: nat)
    ensures Project(tr + [e], rule) == Project(tr, rule) + EventFor(e, rule)
  {
    assert H.Pre(tr + [e]) == tr;
  }

  lemma RunAppends(cfg: Config, tr: seq<H.Event>, e: H.Event)
    ensures H.Run(cfg, tr + [e]) == H.Step(cfg, H.Run(cfg, tr), e)
  {
    assert H.Pre(tr + [e]) == tr;
  }

  /** What one more event does to the rule at an index. */
  lemma RunOfAppends(cfg: Config, tr: seq<WatchEvent>, e: WatchEvent, rule: nat)
    ensures RunOf(cfg, tr + [e], rule) ==
            match e
            case ObsOf(r, o) => if r == rule then Observe(cfg, RunOf(cfg, tr, rule), o) else RunOf(cfg, tr, rule)
            case TickAll(now) => Tick(cfg, RunOf(cfg, tr, rule), now)
            case RestartAll => ZERO
  {
    ProjectAppends(tr, e, rule);
    if EventFor(e, rule) != [] {
      RunAppends(cfg, Project(tr, rule), EventFor(e, rule)[0]);
    } else {
      assert Project(tr, rule) + [] == Project(tr, rule);
    }
  }

  /** The indices below `n` at which `flags` is set, in order. */
  function Positions(flags: seq<bool>, n: nat): seq<nat>
    requires n <= |flags|
  {
    if n == 0 then []
    else if flags[n - 1] then Positions(flags, n - 1) + [n - 1]
    else Positions(flags, n - 1)
  }

  lemma {:induction false} PositionsExactly(flags: seq<bool>, n: nat)
    requires n <= |flags|
    ensures var f := Positions(flags, n);
            && |f| <= n
            && (forall i :: 0 <= i < |f| ==> f[i] < n && flags[f[i]])
            && (forall r: nat :: r < n && flags[r] ==> r in f)
            && (forall i, j :: 0 <= i < j < |f| ==> f[i] < f[j])
  {
    if n > 0 {
      PositionsExactly(flags, n - 1);
    }
  }

  /** Which rules a tick at `now` reports after `tr`: each by its own run. */
  function ReportFlags(cfgs: seq<Config>, tr: seq<WatchEvent>, now: int): seq<bool> {
    seq(|cfgs|, i requires 0 <= i < |cfgs| => Reports(cfgs[i], RunOf(cfgs[i], tr, i), now))
  }

  /** The rules that a tick at `now` reports, in index order. */
  function Fired(cfgs: seq<Config>, tr: seq<WatchEvent>, now: int): seq<nat> {
    Positions(ReportFlags(cfgs, tr, now), |cfgs|)
  }

  /** A tick reports a rule exactly when the run of that rule says so, and once. */
  lemma FiredExactly(cfgs: seq<Config>, tr: seq<WatchEvent>, now: int)
    ensures var f := Fired(cfgs, tr, now);
            && |f| <= |cfgs|
            && (forall r: nat :: r in f <==> r < |cfgs| && Reports(cfgs[r], RunOf(cfgs[r], tr, r), now))
            && (forall i, j :: 0 <= i < j < |f| ==> f[i] < f[j])
  {
    PositionsExactly(ReportFlags(cfgs, tr, now), |cfgs|);
  }

  /** Where the rules with these configurations are after `tr`. */
  function RunsOf(cfgs: seq<Config>, tr: seq<WatchEvent>): (rs: seq<Runtime>)
    ensures |rs| == |cfgs|
  {
    seq(|cfgs|, i requires 0 <= i < |cfgs| => RunOf(cfgs[i], tr, i))
  }

  lemma TickRuns(cfgs: seq<Config>, tr: seq<WatchEvent>, now: int)
    ensures forall i :: 0 <= i < |cfgs| ==>
              RunsOf(cfgs, tr + [TickAll(now)])[i] == Machine.Tick(cfgs[i], RunsOf(cfgs, tr)[i], now)
  {
    forall i | 0 <= i < |cfgs|
      ensures RunsOf(cfgs, tr + [TickAll(now)])[i] == Machine.Tick(cfgs[i], RunsOf(cfgs, tr)[i], now)
    {
      RunOfAppends(cfgs[i], tr, TickAll(now), i);
    }
  }

  lemma ObserveRuns(cfgs: seq<Config>, tr: seq<WatchEvent>, rule: nat, o: Observation)
    requires rule < |cfgs|
    ensures RunsOf(cfgs, tr + [ObsOf(rule, o)]) ==
            RunsOf(cfgs, tr)[rule := Machine.Observe(cfgs[rule], RunsOf(cfgs, tr)[rule], o)]
  {
    forall i | 0 <= i < |cfgs|
      ensures RunsOf(cfgs, tr + [ObsOf(rule, o)])[i] ==
              RunsOf(cfgs, tr)[rule := Machine.Observe(cfgs[rule], RunsOf(cfgs, tr)[rule], o)][i]
    {
      RunOfAppends(cfgs[i], tr, ObsOf(rule, o), i);
    }
  }

  /** Nothing was observed for a rule at index `n` or above since the last restart. */
  ghost predicate Unused(tr: seq<WatchEvent>, n: nat) {
    forall i: nat, cfg :: i >= n ==> RunOf(cfg, tr, i) == ZERO
  }

  lemma StillUnused(tr: seq<WatchEvent>, n: nat, e: WatchEvent)
    requires e.RestartAll? || (Unused(tr, n) && (e.ObsOf? ==> e.rule < n))
    ensures Unused(tr + [e], n)
  {
    forall i: nat, cfg | i >= n ensures RunOf(cfg, tr + [e], i) == ZERO {
      RunOfAppends(cfg, tr, e, i);
    }
  }

  /** `now` is `was` overwritten from the front by as much of `f` as fits. */
  predicate Collected<T(==)>(now: seq<T>, f: seq<T>, was: seq<T>) {
    |now| == |was| && forall i :: 0 <= i < |now| ==> now[i] == if i < |f| then f[i] else was[i]
  }

  method Collect(out: array<nat>, n: nat, x: nat, ghost f: seq<nat>, ghost was: seq<nat>) returns (m: nat)
    requires n == |f| && Collected(out[..], f, was)
    modifies out
    ensures m == n + 1 && Collected(out[..], f + [x], was)
  {
    if n < out.Length {
      out[n] := x;
    }
    m := n + 1;
  }

  function CopyIdStatus(id: string): Status {
    if IdFits(id) then Ok else Limit
  }

  /** What adding `cfg` to a watch of `count` rules answers. */
  function AddStatus(count: nat, cfg: Config): Status {
    if count >= MAX_RULES then Limit
    else if !Usable(cfg) then InvalidArg
    else CopyIdStatus(cfg.id)
  }

  /** Which answer adding a rule gets, in the order in which the code looks: room, the
      configuration, the identifier. */
  lemma AddStatusExactly(count: nat, cfg: Config)
    ensures var sound :=
              && (cfg.target == Yes || cfg.target == No)
              && cfg.confirmCount > 0 && cfg.confirmWindow >= 0 && cfg.maxGap > 0
              && (match cfg.kind
                  case Appeared => cfg.sustain == 0
                  case Sustained => cfg.sustain > 0);
            AddStatus(count, cfg) ==
              if count >= 8 then Limit
              else if !sound then InvalidArg
              else if 1 <= |cfg.id| <= 31 then Ok
              else Limit
  {
  }

  lemma CopyIdExactly(id: string)
    ensures CopyIdStatus(id) == if 1 <= |id| <= 31 then Ok else Limit
  {
  }

  /** One `struct gw_rule_runtime`. */
  class Rule {
    const cfg: Config

    var confirmed: Value
    var candidate: Value
    var candidateCount: U32
    var candidateFirst: int
    var lastObs: int
    var lastFrame: nat
    var hasObs: bool
    var armed: bool
    var fired: bool
    var pending: bool
    var runStart: int
    var runOpen: bool

    constructor (cfg: Config)
      ensures this.cfg == cfg && State() == ZERO
    {
      this.cfg := cfg;
      confirmed, candidate, candidateCount, candidateFirst := Unknown, Unknown, 0, 0;
      lastObs, lastFrame, hasObs := 0, 0, false;
      armed, fired, pending, runStart, runOpen := false, false, false, 0, false;
    }

    ghost function State(): Runtime
      reads this
    {
      Runtime(
        confirmed,
        Candidate(candidate, candidateCount, candidateFirst),
        if hasObs then Some(Stamp(lastFrame, lastObs)) else None,
        Reaction(armed, fired, pending, runOpen, runStart))
    }

    method ResetCandidate()
      modifies this
      ensures State() == old(State()).(candidate := NO_CANDIDATE)
    {
      candidate := Unknown;
      candidateCount := 0;
      candidateFirst := 0;
    }

    method BreakRun()
      modifies this
      ensures State() == old(State()).(reaction := Machine.BreakRun(old(State().reaction)))
    {
      runOpen := false;
      runStart := 0;
      fired := false;
    }

    method SetConfirmed(v: Value, at: int)
      modifies this
      ensures State() == old(State()).(
                confirmed := v,
                reaction := if old(confirmed) == v then old(State().reaction)
                            else React(cfg, old(State().reaction), v, at))
    {
      if confirmed == v {
        return;
      }
      confirmed := v;
      match cfg.kind
      case Appeared =>
        if v == OppositeOf(cfg.target) {
          armed := true;
          fired := false;
        } else if v == cfg.target && armed {
          pending := true;
          fired := true;
          armed := false;
        }
      case Sustained =>
        if v == cfg.target {
          runOpen := true;
          runStart := at;
          fired := false;
        } else {
          BreakRun();
        }
    }

    /** The body of `gw_observe` for this rule. */
    method Observe(o: Observation) returns (status: Status)
      modifies this
      ensures status == ObserveStatus(old(State()), o)
      ensures State() == Machine.Observe(cfg, old(State()), o)
    {
      if hasObs {
        if o.frame == lastFrame {
          return Duplicate;
        }
        if o.at < lastObs {
          return Stale;
        }
      }
      lastObs := o.at;
      lastFrame := o.frame;
      hasObs := true;
      Gather(o);
      if cfg.kind.Sustained? && o.value != cfg.target {
        BreakRun();
      }
      if candidateCount >= cfg.confirmCount && o.at - candidateFirst >= cfg.confirmWindow {
        SetConfirmed(candidate, o.at);
      }
      return Ok;
    }

    method Gather(o: Observation)
      modifies this
      ensures State() == old(State()).(candidate := Accumulate(old(State().candidate), o))
    {
      if candidateCount == 0 || o.value != candidate {
        candidate := o.value;
        candidateCount := 1;
        candidateFirst := o.at;
      } else if candidateCount < UINT32_MAX {
        candidateCount := candidateCount + 1;
      }
    }

    predicate EvidenceExpired(now: int)
      reads this
      ensures EvidenceExpired(now) == Machine.EvidenceExpired(cfg, State(), now)
    {
      !hasObs || now - lastObs > cfg.maxGap
    }

    /** The body of the loop of `gw_tick` for this rule. */
    method Tick(now: int) returns (reports: bool)
      modifies this
      ensures reports == Reports(cfg, old(State()), now)
      ensures State() == Machine.Tick(cfg, old(State()), now)
    {
      if EvidenceExpired(now) {
        confirmed := Unknown;
        ResetCandidate();
        if cfg.kind.Sustained? {
          BreakRun();
        } else {
          armed := false;
        }
      } else if cfg.kind.Sustained? && runOpen && !fired && now - runStart >= cfg.sustain {
        pending := true;
        fired := true;
      }
      reports := pending;
      pending := false;
    }
  }

  class Watch {
    var cameraId: string
    var rules: seq<Rule>
    var lastTick: int
    var hasTicked: bool
    ghost var cfgs: seq<Config>
    ghost var history: seq<WatchEvent>

    ghost predicate Distinct()
      reads this
    {
      forall i, j :: 0 <= i < j < |rules| ==> rules[i] != rules[j]
    }

    /** Every rule from `lo` up to `hi` is in the state given for it. */
    ghost predicate States(states: seq<Runtime>, lo: nat, hi: nat)
      requires hi <= |rules| == |states|
      reads this, rules
    {
      forall i :: lo <= i < hi ==> rules[i].State() == states[i]
    }

    ghost predicate Valid()
      reads this, rules
    {
      && |rules| <= MAX_RULES
      && Distinct()
      && |cfgs| == |rules|
      && (forall i :: 0 <= i < |rules| ==>
            rules[i].cfg == cfgs[i] && Usable(cfgs[i]) && IdFits(cfgs[i].id))
      && States(RunsOf(cfgs, history), 0, |rules|)
      && Unused(history, |rules|)
    }

    /** A zeroed watch. */
    constructor ()
      ensures Valid() && rules == [] && !hasTicked && history == [] && cfgs == []
    {
      cameraId, rules, lastTick, hasTicked, history, cfgs := "", [], 0, false, [], [];
    }

    /** `gw_init`.  Calling it on a live watch is a restart. */
    method Init(camera: string) returns (status: Status)
      modifies this
      ensures Valid() && cfgs == [] && !hasTicked
      ensures history == old(history) + [RestartAll]
      ensures status == CopyIdStatus(camera)
      ensures cameraId == if status == Ok then camera else ""
    {
      cameraId, rules, lastTick, hasTicked, cfgs := "", [], 0, false, [];
      StillUnused(history, 0, RestartAll);
      history := history + [RestartAll];
      if |camera| == 0 || |camera| + 1 > ID_CAP {
        return Limit;
      }
      cameraId := camera;
      return Ok;
    }

    /** `gw_add_rule`. */
    method AddRule(cfg: Config) returns (status: Status, rule: nat)
      requires Valid()
      modifies this
      ensures Valid() && unchanged(`history) && unchanged(`hasTicked) && unchanged(`lastTick) && unchanged(`cameraId)
      ensures status == AddStatus(|old(cfgs)|, cfg)
      ensures cfgs == if status == Ok then old(cfgs) + [cfg] else old(cfgs)
      ensures status == Ok ==> rule == |old(cfgs)| && rules[..rule] == old(rules) && fresh(rules[rule])
      ensures status != Ok ==> rules == old(rules)
    {
      rule := 0;
      if |rules| >= MAX_RULES {
        return Limit, 0;
      }
      if cfg.target != Yes && cfg.target != No {
        return InvalidArg, 0;
      }
      if cfg.confirmCount == 0 || cfg.confirmWindow < 0 || cfg.maxGap <= 0 {
        return InvalidArg, 0;
      }
      match cfg.kind {
        case Appeared =>
          if cfg.sustain != 0 {
            return InvalidArg, 0;
          }
        case Sustained =>
          if cfg.sustain <= 0 {
            return InvalidArg, 0;
          }
      }
      if |cfg.id| == 0 || |cfg.id| + 1 > ID_CAP {
        return Limit, 0;
      }
      var r := new Rule(cfg);
      rule := |rules|;
      rules := rules + [r];
      cfgs := cfgs + [cfg];
      return Ok, rule;
    }

    /** `gw_observe`.  A refused observation is recorded in the history too; the run of
        the rule refuses it in the same way. */
    method Observe(rule: nat, o: Observation) returns (status: Status)
      requires Valid()
      modifies this`history, rules
      ensures Valid()
      ensures status == if rule >= |cfgs| then InvalidArg
                        else ObserveStatus(RunOf(cfgs[rule], old(history), rule), o)
      ensures history == if rule >= |cfgs| then old(history) else old(history) + [ObsOf(rule, o)]
    {
      if rule >= |rules| {
        return InvalidArg;
      }
      StillUnused(history, |rules|, ObsOf(rule, o));
      ObserveRuns(cfgs, history, rule, o);
      var r := rules[rule];
      status := r.Observe(o);
      history := history + [ObsOf(rule, o)];
    }

    /** The loop of `gw_tick`: every rule is taken from its state in `before` to its
        state in `after`; every reported rule is drained and counted in `n`, whether or
        not it still fits into `out`. */
    method TickRules(now: int, out: array<nat>, ghost before: seq<Runtime>, ghost after: seq<Runtime>,
                     ghost flags: seq<bool>)
      returns (n: nat)
      requires Distinct() && |before| == |after| == |flags| == |rules| && States(before, 0, |rules|)
      requires forall i :: 0 <= i < |rules| ==>
                 && after[i] == Machine.Tick(rules[i].cfg, before[i], now)
                 && flags[i] == Reports(rules[i].cfg, before[i], now)
      modifies rules, out
      ensures States(after, 0, |rules|)
      ensures var f := Positions(flags, |rules|);
              n == |f| && Collected(out[..], f, old(out[..]))
    {
      hide Machine.Tick, Reports, Rule.State;
      n := 0;
      ghost var f, was := [], out[..];
      var i := 0;
      while i < |rules|
        invariant 0 <= i <= |rules|
        invariant States(after, 0, i) && States(before, i, |rules|)
        invariant n == |f| && f == Positions(flags, i)
        invariant Collected(out[..], f, was)
      {
        var r := rules[i];
        var reports := r.Tick(now);
        if reports {
          n := Collect(out, n, i, f, was);
          f := f + [i];
        }
        i := i + 1;
      }
    }

    /** `gw_tick` at a time that is not before the last tick. */
    method TickForward(now: int, out: array<nat>) returns (n: nat)
      requires Valid()
      modifies this`history, this`lastTick, this`hasTicked, rules, out
      ensures Valid() && hasTicked && lastTick == now
      ensures history == old(history) + [TickAll(now)]
      ensures var fired := Fired(cfgs, old(history), now);
              n == |fired| && Collected(out[..], fired, old(out[..]))
    {
      hide Machine.Tick, Reports, Rule.State, RunOf, Collected;
      TickRuns(cfgs, history, now);
      StillUnused(history, |rules|, TickAll(now));
      n := TickRules(now, out, RunsOf(cfgs, history), RunsOf(cfgs, history + [TickAll(now)]),
                     ReportFlags(cfgs, history, now));
      lastTick := now;
      hasTicked := true;
      history := history + [TickAll(now)];
    }

    /** `gw_tick` with an array of `out.Length` entries to collect into. */
    method Tick(now: int, out: array<nat>) returns (status: Status, n: nat)
      requires Valid()
      modifies this`history, this`lastTick, this`hasTicked, rules, out
      ensures Valid() && hasTicked
      ensures old(hasTicked) && now < old(lastTick) ==>
                && status == TimeWentBackwards && n == 0 && lastTick == old(lastTick)
                && history == old(history) && unchanged(rules) && unchanged(out)
      ensures !(old(hasTicked) && now < old(lastTick)) ==>
                && history == old(history) + [TickAll(now)] && lastTick == now
                && n == |Fired(cfgs, old(history), now)|
                && Collected(out[..], Fired(cfgs, old(history), now), old(out[..]))
                && status == if n > out.Length then Limit else Ok
    {
      if hasTicked && now < lastTick {
        return TimeWentBackwards, 0;
      }
      n := TickForward(now, out);
      status := if n > out.Length then Limit else Ok;
    }

    /** `gw_get_state`: reads, and changes nothing. */
    method GetState(rule: nat, now: int) returns (status: Status, view: RuleView)
      requires Valid()
      ensures status == if rule >= |cfgs| then InvalidArg else Ok
      ensures status == Ok ==> view == View(cfgs[rule], RunOf(cfgs[rule], history, rule), now)
    {
      view := RuleView(Unknown, Offline, None, 0, 0, false);
      if rule >= |rules| {
        return InvalidArg, view;
      }
      var r := rules[rule];
      var expired := r.EvidenceExpired(now);
      var age := if r.hasObs then Some(now - r.lastObs) else None;
      view := view.(confirmed := if expired then Unknown else r.confirmed, age := age, fired := r.fired);
      if !r.hasObs {
        view := view.(health := Offline);
      } else if !expired {
        view := view.(health := Healthy);
      } else if age.value <= r.cfg.maxGap * OFFLINE_GAP_FACTOR {
        view := view.(health := Degraded);
      } else {
        view := view.(health := Offline);
      }
      if !expired && r.candidate == r.confirmed {
        view := view.(confirmations := r.candidateCount);
      }
      if !expired && r.runOpen && now >= r.runStart {
        view := view.(sustained := now - r.runStart);
      }
      return Ok, view;
    }
  }
}
