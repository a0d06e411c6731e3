/**
 The vocabulary of the confirmation engine and its transition functions on one
 rule (include/geist_watch.h, src/gw_state.c).

 `Runtime` is the value of one `struct gw_rule_runtime`.  The functions here are
 what the in-place methods of module `Watching` are proved against; what they
 amount to over whole runs is the business of module `History` and its clients.
 */
module Machine {
  import opened Options

  const UINT32_MAX: nat := 0xFFFF_FFFF
  const MAX_RULES: nat := 8
  const ID_CAP: nat := 32
  const OFFLINE_GAP_FACTOR: nat := 10

  type U32 = n: nat | n <= UINT32_MAX

  datatype Status = Ok | InvalidArg | Limit | TimeWentBackwards | Duplicate | Stale

  datatype Value = Unknown | No | Yes

  datatype Kind = Appeared | Sustained

  datatype Config = Config(
    id: string,
    kind: Kind,
    target: Value,
    confirmCount: U32,
    confirmWindow: int,
    maxGap: int,
    sustain: int)

  datatype Observation = Observation(frame: nat, at: int, value: Value)

  /** Which frame was accepted last, and when it was captured. */
  datatype Stamp = Stamp(frame: nat, at: int)

  datatype Candidate = Candidate(value: Value, count: U32, first: int)

  /** What a rule makes of confirmed values: arming and latching, and the open run
      of a sustained rule. */
  datatype Reaction = Reaction(armed: bool, fired: bool, pending: bool, runOpen: bool, runStart: int)

  datatype Runtime = Runtime(confirmed: Value, candidate: Candidate, seen: Option<Stamp>, reaction: Reaction)

  const NO_CANDIDATE := Candidate(Unknown, 0, 0)

  const IDLE := Reaction(false, false, false, false, 0)

  /** A zeroed rule: it knows nothing and is disarmed. */
  const ZERO := Runtime(Unknown, NO_CANDIDATE, None, IDLE)

  function OppositeOf(v: Value): Value {
    match v
    case Yes => No
    case No => Yes
    case Unknown => Unknown
  }

  /** The part of `gw_add_rule` that looks at the configuration: a rule that could
      never confirm, or never fire, is not a usable one. */
  predicate Usable(cfg: Config) {
    && cfg.target != Unknown
    && cfg.confirmCount > 0
    && cfg.confirmWindow >= 0
    && cfg.maxGap > 0
    && (cfg.kind.Appeared? ==> cfg.sustain == 0)
    && (cfg.kind.Sustained? ==> cfg.sustain > 0)
  }

  predicate IdFits(id: string) {
    0 < |id| < ID_CAP
  }

  // ---------------------------------------------------------------- transitions

  function BreakRun(r: Reaction): Reaction {
    r.(runOpen := false, runStart := 0, fired := false)
  }

  /** How a rule takes a new confirmed value `v`. */
  function React(cfg: Config, r: Reaction, v: Value, at: int): Reaction {
    match cfg.kind
    case Appeared =>
      if v == OppositeOf(cfg.target) then r.(armed := true, fired := false)
      else if v == cfg.target && r.armed then r.(pending := true, fired := true, armed := false)
      else r
    case Sustained =>
      if v == cfg.target then r.(runOpen := true, runStart := at, fired := false)
      else BreakRun(r)
  }

  function ObserveStatus(s: Runtime, o: Observation): Status {
    match s.seen
    case None => Ok
    case Some(last) =>
      if o.frame == last.frame then Duplicate
      else if o.at < last.at then Stale
      else Ok
  }

  function Accumulate(c: Candidate, o: Observation): Candidate {
    if c.count == 0 || o.value != c.value then Candidate(o.value, 1, o.at)
    else if c.count < UINT32_MAX then c.(count := c.count + 1)
    else c
  }

  predicate Suffices(cfg: Config, c: Candidate, at: int) {
    c.count >= cfg.confirmCount && at - c.first >= cfg.confirmWindow
  }

  function Observe(cfg: Config, s: Runtime, o: Observation): Runtime {
    if ObserveStatus(s, o) != Ok then s
    else
      var c := Accumulate(s.candidate, o);
      var r := if cfg.kind.Sustained? && o.value != cfg.target then BreakRun(s.reaction) else s.reaction;
      if !Suffices(cfg, c, o.at) then Runtime(s.confirmed, c, Some(Stamp(o.frame, o.at)), r)
      else Runtime(o.value, c, Some(Stamp(o.frame, o.at)),
                   if s.confirmed == o.value then r else React(cfg, r, o.value, o.at))
  }

  predicate EvidenceExpired(cfg: Config, s: Runtime, now: int) {
    s.seen == None || now - s.seen.value.at > cfg.maxGap
  }

  /** Whether a sustained run has lasted long enough by `now` and has not said so yet. */
  predicate RunDue(cfg: Config, r: Reaction, now: int) {
    cfg.kind.Sustained? && r.runOpen && !r.fired && now - r.runStart >= cfg.sustain
  }

  /** The rule after the clock has moved to `now`, before what is pending is drained. */
  function Advance(cfg: Config, s: Runtime, now: int): Runtime {
    if EvidenceExpired(cfg, s, now) then
      Runtime(Unknown, NO_CANDIDATE, s.seen,
              if cfg.kind.Sustained? then BreakRun(s.reaction) else s.reaction.(armed := false))
    else if RunDue(cfg, s.reaction, now) then
      s.(reaction := s.reaction.(pending := true, fired := true))
    else s
  }

  predicate Reports(cfg: Config, s: Runtime, now: int) {
    Advance(cfg, s, now).reaction.pending
  }

  function Tick(cfg: Config, s: Runtime, now: int): Runtime {
    var t := Advance(cfg, s, now);
    t.(reaction := t.reaction.(pending := false))
  }

  // ---------------------------------------------------------------- the query

  datatype Health = Healthy | Degraded | Offline

  /** `age` is `None` where the source reports INT64_MAX. */
  datatype RuleView = RuleView(
    confirmed: Value,
    health: Health,
    age: Option<int>,
    confirmations: U32,
    sustained: int,
    fired: bool)

  function View(cfg: Config, s: Runtime, now: int): RuleView {
    var expired := EvidenceExpired(cfg, s, now);
    RuleView(
      if expired then Unknown else s.confirmed,
      if s.seen == None then Offline
      else if !expired then Healthy
      else if now - s.seen.value.at <= cfg.maxGap * OFFLINE_GAP_FACTOR then Degraded
      else Offline,
      if s.seen == None then None else Some(now - s.seen.value.at),
      if !expired && s.candidate.value == s.confirmed then s.candidate.count else 0,
      if !expired && s.reaction.runOpen && now >= s.reaction.runStart then now - s.reaction.runStart else 0,
      s.reaction.fired)
  }
}
