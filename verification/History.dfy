/**
 Runs of one rule as sequences of events, and what the engine's state means in
 terms of the observations that were accepted.

 Nothing in `Accepted`, `Evidence`, `RunStart` and `ConfirmedBy` mentions the
 machine: they are the reading of a run that the design gives ("enough agreeing
 observations spread over enough time, since sight was last lost").
 `HistoryRefinement` says that the incremental bookkeeping of src/gw_state.c is
 exactly that reading, after every run.
 */
module History {
  import opened Machine
  import opened Options

  /** What can happen to a rule.  `Restart` is `gw_init` followed by adding the
      same rule again; `TickAt` is a tick that was not refused. */
  datatype Event = Obs(o: Observation) | TickAt(now: int) | Restart

  function Pre<T>(s: seq<T>): seq<T>
    requires s != []
  {
    s[..|s| - 1]
  }

  function Last<T>(s: seq<T>): T
    requires s != []
  {
    s[|s| - 1]
  }

  /** An observation whose frame number is its time, for examples. */
  function Seen(frame: nat, v: Value): Event {
    Obs(Observation(frame, frame, v))
  }

  function Step(cfg: Config, s: Runtime, e: Event): Runtime {
    match e
    case Obs(o) => Observe(cfg, s, o)
    case TickAt(now) => Tick(cfg, s, now)
    case Restart => ZERO
  }

  function Run(cfg: Config, tr: seq<Event>): Runtime {
    if tr == [] then ZERO else Step(cfg, Run(cfg, Pre(tr)), Last(tr))
  }

  // ---------------------------------------------------------------- observations

  /** The newest frame does not count again, and nothing counts out of order. */
  predicate Acceptable(h: seq<Observation>, o: Observation) {
    h == [] || (o.frame != Last(h).frame && Last(h).at <= o.at)
  }

  /** The observations accepted since the last restart. */
  function Accepted(tr: seq<Event>): seq<Observation> {
    if tr == [] then [] else
      var h := Accepted(Pre(tr));
      match Last(tr)
      case Obs(o) => if Acceptable(h, o) then h + [o] else h
      case TickAt(_) => h
      case Restart => []
  }

  /** Frames in ascending order, none after `frame`. */
  predicate FramesUpTo(h: seq<Observation>, frame: nat) {
    && (forall i :: 0 <= i < |h| ==> h[i].frame <= frame)
    && (forall i, j :: 0 <= i < j < |h| ==> h[i].frame < h[j].frame)
  }

  lemma OneMoreFrame(h: seq<Observation>, o: Observation, frame: nat)
    requires FramesUpTo(h, o.frame) && o.frame <= frame
    ensures FramesUpTo(h, frame)
    ensures Acceptable(h, o) ==> FramesUpTo(h + [o], frame)
  {
    if Acceptable(h, o) && h != [] {
      var l := |h| - 1;
      assert h[l].frame < o.frame;
      forall i | 0 <= i < |h| ensures h[i].frame < o.frame {
        assert i == l || h[i].frame < h[l].frame;
      }
    }
  }

  /** With frame numbers that never go back, every frame counts at most once. */
  lemma {:induction false} FramesCountOnce(tr: seq<Event>, frame: nat)
    requires forall i, j :: 0 <= i < j < |tr| && tr[i].Obs? && tr[j].Obs? ==> tr[i].o.frame <= tr[j].o.frame
    requires forall i :: 0 <= i < |tr| && tr[i].Obs? ==> tr[i].o.frame <= frame
    ensures FramesUpTo(Accepted(tr), frame)
  {
    if tr != [] {
      var p, e := Pre(tr), tr[|tr| - 1];
      FramesCountOnce(p, if e.Obs? then e.o.frame else frame);
      if e.Obs? {
        OneMoreFrame(Accepted(p), e.o, frame);
      }
      hide Acceptable, FramesUpTo;
    } else {
      assert FramesUpTo([], frame);
    }
  }

  predicate Expiring(cfg: Config, h: seq<Observation>, now: int) {
    h == [] || now - Last(h).at > cfg.maxGap
  }

  /** The observations accepted since sight was last lost. */
  function Evidence(cfg: Config, tr: seq<Event>): seq<Observation> {
    if tr == [] then [] else
      var h := Evidence(cfg, Pre(tr));
      match Last(tr)
      case Obs(o) => if Acceptable(Accepted(Pre(tr)), o) then h + [o] else h
      case TickAt(now) => if Expiring(cfg, Accepted(Pre(tr)), now) then [] else h
      case Restart => []
  }

  /** Where the longest suffix of `h` on which all values agree begins. */
  function RunStart(h: seq<Observation>): (i: nat)
    requires h != []
    ensures i < |h|
    ensures forall j :: i <= j < |h| ==> h[j].value == Last(h).value
    ensures i > 0 ==> h[i - 1].value != Last(h).value
  {
    if |h| == 1 || h[|h| - 2].value != Last(h).value then |h| - 1 else RunStart(Pre(h))
  }

  /** The agreeing observations at the end of `h` are numerous and spread enough. */
  predicate Confirms(cfg: Config, h: seq<Observation>) {
    && h != []
    && |h| - RunStart(h) >= cfg.confirmCount
    && Last(h).at - h[RunStart(h)].at >= cfg.confirmWindow
  }

  /** The value at the latest point of `h` that confirmed one. */
  function ConfirmedBy(cfg: Config, h: seq<Observation>): Value {
    if h == [] then Unknown
    else if Confirms(cfg, h) then Last(h).value
    else ConfirmedBy(cfg, Pre(h))
  }

  /** The length of the latest prefix of `h` that confirms a value; 0 if none does. */
  function LatestConfirming(cfg: Config, h: seq<Observation>): (k: nat)
    ensures k <= |h|
    ensures k > 0 ==> Confirms(cfg, h[..k])
  {
    if h == [] then 0
    else if Confirms(cfg, h) then assert h[..|h|] == h; |h|
    else
      var k := LatestConfirming(cfg, Pre(h));
      assert Pre(h)[..k] == h[..k];
      k
  }

  lemma {:induction false} ConfirmedByIsLatest(cfg: Config, h: seq<Observation>)
    ensures var k := LatestConfirming(cfg, h);
            && ConfirmedBy(cfg, h) == (if k == 0 then Unknown else h[k - 1].value)
            && forall j :: k < j <= |h| ==> !Confirms(cfg, h[..j])
  {
    if h != [] && !Confirms(cfg, h) {
      ConfirmedByIsLatest(cfg, Pre(h));
      forall j | LatestConfirming(cfg, h) < j <= |h| ensures !Confirms(cfg, h[..j]) {
        assert h[..j] == if j == |h| then h else Pre(h)[..j];
      }
    }
  }

  // ---------------------------------------------------------------- refinement

  function Min(a: nat, b: nat): nat {
    if a <= b then a else b
  }

  /** The newest accepted observation is what the machine compares against. */
  function StampOf(a: seq<Observation>): Option<Stamp> {
    if a == [] then None else Some(Stamp(Last(a).frame, Last(a).at))
  }

  /** The longest agreeing suffix of the evidence, its count saturating. */
  function CandidateOf(e: seq<Observation>): Candidate {
    if e == [] then NO_CANDIDATE
    else Candidate(Last(e).value, Min(|e| - RunStart(e), UINT32_MAX), e[RunStart(e)].at)
  }

  /** `s` is what the observations `a`, of which `e` are still evidence, amount to. */
  predicate Describes(cfg: Config, s: Runtime, a: seq<Observation>, e: seq<Observation>) {
    && s.seen == StampOf(a)
    && s.candidate == CandidateOf(e)
    && s.confirmed == ConfirmedBy(cfg, e)
  }

  /** One more agreeing observation lengthens the run, a contrary one starts a new run. */
  lemma AccumulateExtends(e: seq<Observation>, o: Observation)
    ensures Accumulate(CandidateOf(e), o) == CandidateOf(e + [o])
  {
    assert Pre(e + [o]) == e;
  }

  lemma ObserveDescribes(cfg: Config, s: Runtime, a: seq<Observation>, e: seq<Observation>, o: Observation)
    requires Describes(cfg, s, a, e)
    ensures (ObserveStatus(s, o) == Ok) == Acceptable(a, o)
    ensures Acceptable(a, o) ==> Describes(cfg, Observe(cfg, s, o), a + [o], e + [o])
  {
    AccumulateExtends(e, o);
    ConfirmsExtends(cfg, e, o);
    hide ConfirmedBy, Confirms, CandidateOf, Accumulate, Suffices;
  }

  /** Whether one more observation confirms its value, and what is confirmed then. */
  lemma ConfirmsExtends(cfg: Config, e: seq<Observation>, o: Observation)
    ensures Suffices(cfg, CandidateOf(e + [o]), o.at) == Confirms(cfg, e + [o])
    ensures ConfirmedBy(cfg, e + [o]) == if Confirms(cfg, e + [o]) then o.value else ConfirmedBy(cfg, e)
  {
    assert Pre(e + [o]) == e;
  }

  /** Which answer an observation gets: the newest accepted frame again is a duplicate, whatever
      its time, and another frame that is older is stale. */
  lemma StatusOfHistory(cfg: Config, tr: seq<Event>, o: Observation)
    ensures var a := Accepted(tr);
            ObserveStatus(Run(cfg, tr), o) ==
              if a == [] then Ok
              else if o.frame == Last(a).frame then Duplicate
              else if o.at < Last(a).at then Stale
              else Ok
  {
    HistoryRefinement(cfg, tr);
    hide Run, Accepted, Evidence, ConfirmedBy, CandidateOf;
  }

  lemma {:induction false} HistoryRefinement(cfg: Config, tr: seq<Event>)
    ensures Describes(cfg, Run(cfg, tr), Accepted(tr), Evidence(cfg, tr))
  {
    if tr != [] {
      var p := Pre(tr);
      HistoryRefinement(cfg, p);
      match Last(tr)
      case Obs(o) => ObserveDescribes(cfg, Run(cfg, p), Accepted(p), Evidence(cfg, p), o);
      case TickAt(now) =>
      case Restart =>
    }
  }

  /** Evidence is always the newest part of what was accepted. */
  lemma {:induction false} EvidenceIsSuffix(cfg: Config, tr: seq<Event>)
    ensures var a, e := Accepted(tr), Evidence(cfg, tr);
            |e| <= |a| && e == a[|a| - |e|..]
  {
    if tr != [] {
      EvidenceIsSuffix(cfg, Pre(tr));
    }
  }

  // ---------------------------------------------------------------- steps of a run

  /** Step `k` is an observation that was accepted. */
  predicate AcceptsAt(tr: seq<Event>, k: nat)
    requires k < |tr|
  {
    tr[k].Obs? && Acceptable(Accepted(tr[..k]), tr[k].o)
  }

  /** Step `k` is an accepted observation completing a full confirming run of `v`. */
  predicate ConfirmsAt(cfg: Config, tr: seq<Event>, k: nat, v: Value)
    requires k < |tr|
  {
    AcceptsAt(tr, k) && tr[k].o.value == v && Confirms(cfg, Evidence(cfg, tr[..k]) + [tr[k].o])
  }

  /** Step `k` loses sight: an expiring tick or a restart. */
  predicate BlindsAt(cfg: Config, tr: seq<Event>, k: nat)
    requires k < |tr|
  {
    tr[k].Restart? || (tr[k].TickAt? && Expiring(cfg, Accepted(tr[..k]), tr[k].now))
  }

  /** Step `k` is a tick at which the rule is reported. */
  predicate ReportsAt(cfg: Config, tr: seq<Event>, k: nat)
    requires k < |tr|
  {
    tr[k].TickAt? && Reports(cfg, Run(cfg, tr[..k]), tr[k].now)
  }

  /** What a step does depends on what came before it only. */
  lemma StepsOfPrefix(cfg: Config, tr: seq<Event>, n: nat)
    requires n <= |tr|
    ensures forall k :: 0 <= k <= n ==> tr[..n][..k] == tr[..k]
    ensures forall k :: 0 <= k < n ==> AcceptsAt(tr[..n], k) == AcceptsAt(tr, k)
    ensures forall k, v :: 0 <= k < n ==> ConfirmsAt(cfg, tr[..n], k, v) == ConfirmsAt(cfg, tr, k, v)
    ensures forall k :: 0 <= k < n ==> BlindsAt(cfg, tr[..n], k) == BlindsAt(cfg, tr, k)
  {
    assert forall k :: 0 <= k <= n ==> tr[..n][..k] == tr[..k];
  }

  /** The last step of a run, in terms of the machine's state before it. */
  lemma LastStep(cfg: Config, tr: seq<Event>)
    requires tr != []
    ensures var k, s := |tr| - 1, Run(cfg, Pre(tr));
            && Pre(tr) == tr[..k]
            && Run(cfg, tr) == Step(cfg, s, tr[k])
            && s.confirmed == ConfirmedBy(cfg, Evidence(cfg, tr[..k]))
            && (AcceptsAt(tr, k) <==> tr[k].Obs? && ObserveStatus(s, tr[k].o) == Ok)
            && (BlindsAt(cfg, tr, k) <==> tr[k].Restart? || (tr[k].TickAt? && EvidenceExpired(cfg, s, tr[k].now)))
            && (AcceptsAt(tr, k) ==> Evidence(cfg, tr) == Evidence(cfg, tr[..k]) + [tr[k].o])
            && (BlindsAt(cfg, tr, k) ==> Evidence(cfg, tr) == [])
            && (!AcceptsAt(tr, k) && !BlindsAt(cfg, tr, k) ==> Evidence(cfg, tr) == Evidence(cfg, tr[..k]))
            && forall v :: ConfirmsAt(cfg, tr, k, v) <==>
                 AcceptsAt(tr, k) && tr[k].o.value == v && Suffices(cfg, Accumulate(s.candidate, tr[k].o), tr[k].o.at)
  {
    var k, s := |tr| - 1, Run(cfg, Pre(tr));
    HistoryRefinement(cfg, tr[..k]);
    if tr[k].Obs? {
      ObserveDescribes(cfg, s, Accepted(tr[..k]), Evidence(cfg, tr[..k]), tr[k].o);
      AccumulateExtends(Evidence(cfg, tr[..k]), tr[k].o);
      assert Pre(Evidence(cfg, tr[..k]) + [tr[k].o]) == Evidence(cfg, tr[..k]);
    }
  }
}
