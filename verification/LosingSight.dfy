/**
 Two runs of one "appeared" rule that saw the same observations, one of which had
 extra ticks, or lost sight (was restarted) more often.

 The design accepts that a delivery inside a gap is missed and insists that none is
 invented.  `NeverManufactures` is that claim as a relation between runs: extra ticks
 and extra restarts never increase the number of latched appearances.
 */
module LosingSight {
  import opened Machine
  import opened Options
  import opened History
  import Appeared

  /** `tr'` is `tr` with ticks, and if `restarts` also restarts, inserted anywhere. */
  predicate Inserts(tr: seq<Event>, tr': seq<Event>, restarts: bool)
    decreases |tr'|
  {
    if tr' == [] then tr == []
    else
      || (tr != [] && Last(tr) == Last(tr') && Inserts(Pre(tr), Pre(tr'), restarts))
      || ((Last(tr').TickAt? || (restarts && Last(tr').Restart?)) && Inserts(tr, Pre(tr'), restarts))
  }

  lemma InsertsShared(tr: seq<Event>, tr': seq<Event>, restarts: bool, e: Event)
    requires Inserts(tr, tr', restarts)
    ensures Inserts(tr + [e], tr' + [e], restarts)
  {
    assert Pre(tr + [e]) == tr && Pre(tr' + [e]) == tr';
  }

  lemma InsertsExtra(tr: seq<Event>, tr': seq<Event>, restarts: bool, e: Event)
    requires Inserts(tr, tr', restarts) && (e.TickAt? || (restarts && e.Restart?))
    ensures Inserts(tr, tr' + [e], restarts)
  {
    assert Pre(tr' + [e]) == tr';
  }

  lemma {:induction false} InsertsItself(tr: seq<Event>)
    ensures forall restarts :: Inserts(tr, tr, restarts)
  {
    if tr != [] {
      InsertsItself(Pre(tr));
    }
  }

  lemma {:induction false} InsertsConcat(a: seq<Event>, a': seq<Event>, b: seq<Event>, b': seq<Event>)
    requires Inserts(a, a', true) && Inserts(b, b', true)
    ensures Inserts(a + b, a' + b', true)
    decreases |b'|
  {
    if b' == [] {
      assert a + b == a && a' + b' == a';
    } else {
      assert Pre(a' + b') == a' + Pre(b') && Last(a' + b') == Last(b');
      if b != [] && Last(b) == Last(b') && Inserts(Pre(b), Pre(b'), true) {
        InsertsConcat(a, a', Pre(b), Pre(b'));
        assert Pre(a + b) == a + Pre(b) && Last(a + b) == Last(b);
      } else {
        InsertsConcat(a, a', b, Pre(b'));
      }
    }
  }

  /** How many appearances a run latches. */
  function Latches(cfg: Config, tr: seq<Event>): nat {
    if tr == [] then 0
    else Latches(cfg, Pre(tr)) + if LatchesBy(cfg, Run(cfg, Pre(tr)), Last(tr)) then 1 else 0
  }

  predicate LatchesBy(cfg: Config, s: Runtime, e: Event) {
    e.Obs? && s.reaction.armed && !Step(cfg, s, e).reaction.armed
  }

  lemma LatchesCounts(cfg: Config, tr: seq<Event>)
    requires tr != []
    ensures Latches(cfg, tr) == Latches(cfg, Pre(tr)) + if Appeared.LatchesAt(cfg, tr, |tr| - 1) then 1 else 0
  {
    assert tr[..|tr|] == tr && Pre(tr) == tr[..|tr| - 1];
  }

  lemma LatchesStep(cfg: Config, tr: seq<Event>)
    requires tr != []
    ensures Latches(cfg, tr) == Bump(Latches(cfg, Pre(tr)), LatchesBy(cfg, Run(cfg, Pre(tr)), Last(tr)))
    ensures !Last(tr).Obs? ==> Latches(cfg, tr) == Latches(cfg, Pre(tr))
  {
  }

  /** Every observation carries a new frame and a time not before the one before it, as
      the replay delivers them; then none is refused. */
  predicate Fresh(tr: seq<Event>) {
    forall i, j :: 0 <= i < j < |tr| && tr[i].Obs? && tr[j].Obs? ==>
      tr[i].o.frame < tr[j].o.frame && tr[i].o.at <= tr[j].o.at
  }

  /** `c'` has accumulated no more than `c` of the same candidate. */
  predicate NoStronger(c': Candidate, c: Candidate) {
    c'.count == 0 || (c'.value == c.value && c'.count <= c.count && c.first <= c'.first)
  }

  /** `s'`, having latched `m` appearances, lags behind `s`, having latched `n`. */
  predicate Lags(cfg: Config, s': Runtime, m: nat, s: Runtime, n: nat) {
    && NoStronger(s'.candidate, s.candidate)
    && (s'.seen == None || s'.seen == s.seen)
    && m <= n
    && (s'.reaction.armed && !s.reaction.armed ==> m < n)
  }

  /** What holds of every appeared rule; see `Appeared.ArmedIff`. */
  predicate Sound(cfg: Config, s: Runtime) {
    && (s.reaction.armed ==> s.confirmed != cfg.target)
    && (s.confirmed == OppositeOf(cfg.target) ==> s.reaction.armed)
    && (s.candidate.count > 0 ==> s.seen.Some? && s.candidate.first <= s.seen.value.at)
    && (s.seen == None ==> !s.reaction.armed)
  }

  function Bump(n: nat, b: bool): nat {
    if b then n + 1 else n
  }

  lemma SharedObservation(cfg: Config, s': Runtime, m: nat, s: Runtime, n: nat, o: Observation)
    requires Usable(cfg) && cfg.kind.Appeared? && Sound(cfg, s') && Sound(cfg, s)
    requires Lags(cfg, s', m, s, n) && (ObserveStatus(s', o) == Ok <==> ObserveStatus(s, o) == Ok)
    ensures Lags(cfg, Observe(cfg, s', o), Bump(m, LatchesBy(cfg, s', Obs(o))),
                 Observe(cfg, s, o), Bump(n, LatchesBy(cfg, s, Obs(o))))
    ensures s'.seen == s.seen ==> Observe(cfg, s', o).seen == Observe(cfg, s, o).seen
  {
    if ObserveStatus(s, o) == Ok {
      var c', c := Accumulate(s'.candidate, o), Accumulate(s.candidate, o);
      assert NoStronger(c', c);
      assert Suffices(cfg, c', o.at) ==> Suffices(cfg, c, o.at);
    }
  }

  lemma SharedTick(cfg: Config, s': Runtime, m: nat, s: Runtime, n: nat, now: int)
    requires cfg.kind.Appeared? && Lags(cfg, s', m, s, n)
    ensures Lags(cfg, Tick(cfg, s', now), m, Tick(cfg, s, now), n)
    ensures Tick(cfg, s', now).seen == s'.seen && Tick(cfg, s, now).seen == s.seen
  {
  }

  lemma AnyRestart(cfg: Config, s': Runtime, m: nat, s: Runtime, n: nat)
    requires Lags(cfg, s', m, s, n)
    ensures Lags(cfg, ZERO, m, ZERO, n) && Lags(cfg, ZERO, m, s, n)
  {
  }

  lemma ExtraTick(cfg: Config, s': Runtime, m: nat, s: Runtime, n: nat, now: int)
    requires cfg.kind.Appeared? && Lags(cfg, s', m, s, n)
    ensures Lags(cfg, Tick(cfg, s', now), m, s, n) && Tick(cfg, s', now).seen == s'.seen
  {
  }

  lemma {:induction false} SoundRuns(cfg: Config, tr: seq<Event>)
    requires Usable(cfg) && cfg.kind.Appeared?
    ensures Sound(cfg, Run(cfg, tr))
  {
    Appeared.ArmedIff(cfg, tr);
    if tr != [] {
      SoundRuns(cfg, Pre(tr));
    }
  }

  /** What a rule has seen last is one of the observations of the run. */
  lemma {:induction false} SeenInRun(cfg: Config, tr: seq<Event>)
    ensures var seen := Run(cfg, tr).seen;
            seen.Some? ==> exists i :: 0 <= i < |tr| && tr[i].Obs? && seen == Some(Stamp(tr[i].o.frame, tr[i].o.at))
  {
    if tr != [] {
      var p, n := Pre(tr), |tr| - 1;
      SeenInRun(cfg, p);
      if tr[n].Obs? && ObserveStatus(Run(cfg, p), tr[n].o) == Ok {
        assert Run(cfg, tr).seen == Some(Stamp(tr[n].o.frame, tr[n].o.at));
      } else if Run(cfg, tr).seen.Some? {
        assert Run(cfg, tr).seen == Run(cfg, p).seen;
        var i :| 0 <= i < |p| && p[i].Obs? && Run(cfg, p).seen == Some(Stamp(p[i].o.frame, p[i].o.at));
        assert tr[i] == p[i];
      }
    }
  }

  lemma FreshAccepts(cfg: Config, tr: seq<Event>)
    requires tr != [] && Fresh(tr) && Last(tr).Obs?
    ensures ObserveStatus(Run(cfg, Pre(tr)), Last(tr).o) == Ok
  {
    var p := Pre(tr);
    SeenInRun(cfg, p);
    if Run(cfg, p).seen.Some? {
      var i :| 0 <= i < |p| && p[i].Obs? && Run(cfg, p).seen == Some(Stamp(p[i].o.frame, p[i].o.at));
      assert p[i] == tr[i];
    }
  }

  /** No observation of the run is refused. */
  predicate NoneRefused(tr: seq<Event>) {
    forall k :: 0 <= k < |tr| && tr[k].Obs? ==> AcceptsAt(tr, k)
  }

  // ---------------------------------------------------------------- refused observations

  /** The observation at `k` is refused, and one that follows it at `m`, with no restart in
      between, would still be accepted after it: its frame is another one and it is no older. */
  predicate Comeback(tr: seq<Event>, k: nat, m: nat) {
    && k < m < |tr| && tr[k].Obs? && tr[m].Obs?
    && !AcceptsAt(tr, k)
    && tr[m].o.frame != tr[k].o.frame && tr[k].o.at <= tr[m].o.at
    && forall j :: k < j < m ==> !tr[j].Restart?
  }

  /** Whatever is refused could not have been followed up before the next restart.  This is
      a matter of frames and times, not of what was seen. */
  predicate NoComeback(tr: seq<Event>) {
    forall k, m :: 0 <= k < m < |tr| ==> !Comeback(tr, k, m)
  }

  /** A rule that has seen last what `tr` refused at `k`, with no restart since. */
  predicate Deaf(tr: seq<Event>, seen: Option<Stamp>, k: nat) {
    && k < |tr| && tr[k].Obs? && !AcceptsAt(tr, k)
    && seen == Some(Stamp(tr[k].o.frame, tr[k].o.at))
    && forall j :: k < j < |tr| ==> !tr[j].Restart?
  }

  lemma DeafExtends(tr: seq<Event>, seen: Option<Stamp>, k: nat, e: Event)
    requires Deaf(tr, seen, k) && !e.Restart?
    ensures Deaf(tr + [e], seen, k)
  {
    assert (tr + [e])[..k] == tr[..k];
  }

  /** Where there is no comeback, a rule that accepted a refused observation accepts no more. */
  lemma DeafRefuses(tr: seq<Event>, cfg: Config, s: Runtime, k: nat, o: Observation)
    requires Deaf(tr, s.seen, k) && NoComeback(tr + [Obs(o)])
    ensures Observe(cfg, s, o) == s
  {
    var t := tr + [Obs(o)];
    assert t[..k] == tr[..k] && t[|tr|] == Obs(o);
    assert !Comeback(t, k, |tr|);
    hide Accepted, Acceptable;
  }

  lemma NoComebackStep(tr: seq<Event>)
    requires tr != [] && NoComeback(tr)
    ensures NoComeback(Pre(tr))
  {
    var p := Pre(tr);
    forall k, m | 0 <= k < m < |p| ensures !Comeback(p, k, m) {
      assert !Comeback(tr, k, m) && tr[..k] == p[..k];
    }
  }

  // ---------------------------------------------------------------- the simulation

  /** `s'` lags behind the state `s` that `tr` leads to, or is deaf and no appearance ahead. */
  ghost predicate Follows(cfg: Config, s': Runtime, m: nat, tr: seq<Event>, s: Runtime, n: nat) {
    Lags(cfg, s', m, s, n) || (m <= n && exists k: nat :: Deaf(tr, s'.seen, k))
  }

  lemma LagsCounts(cfg: Config, s': Runtime, m: nat, s: Runtime, n: nat)
    requires Lags(cfg, s', m, s, n)
    ensures m <= n && (s'.seen == None || s'.seen == s.seen)
  {
  }

  lemma FollowsObservation(cfg: Config, s': Runtime, m: nat, tr: seq<Event>, s: Runtime, n: nat, o: Observation)
    requires Usable(cfg) && cfg.kind.Appeared? && Sound(cfg, s') && Sound(cfg, s) && s == Run(cfg, tr)
    requires Follows(cfg, s', m, tr, s, n) && NoComeback(tr + [Obs(o)])
    ensures Follows(cfg, Observe(cfg, s', o), Bump(m, LatchesBy(cfg, s', Obs(o))),
                    tr + [Obs(o)], Observe(cfg, s, o), Bump(n, LatchesBy(cfg, s, Obs(o))))
  {
    hide Accepted, NoComeback, Run;
    if Lags(cfg, s', m, s, n) {
      if ObserveStatus(s', o) == Ok <==> ObserveStatus(s, o) == Ok {
        SharedObservation(cfg, s', m, s, n, o);
      } else {
        LagsCounts(cfg, s', m, s, n);
        BecomesDeaf(cfg, tr, o);
      }
    } else {
      var k: nat :| Deaf(tr, s'.seen, k);
      DeafRefuses(tr, cfg, s', k, o);
      DeafExtends(tr, s'.seen, k, Obs(o));
    }
  }

  lemma BecomesDeaf(cfg: Config, tr: seq<Event>, o: Observation)
    requires ObserveStatus(Run(cfg, tr), o) != Ok
    ensures Deaf(tr + [Obs(o)], Some(Stamp(o.frame, o.at)), |tr|)
  {
    var t := tr + [Obs(o)];
    assert Pre(t) == tr;
    LastStep(cfg, t);
    hide Run, Accepted, ObserveStatus;
  }

  lemma FollowsTick(cfg: Config, s': Runtime, m: nat, tr: seq<Event>, s: Runtime, n: nat, now: int)
    requires cfg.kind.Appeared? && Follows(cfg, s', m, tr, s, n)
    ensures Follows(cfg, Tick(cfg, s', now), m, tr + [TickAt(now)], Tick(cfg, s, now), n)
    ensures Follows(cfg, Tick(cfg, s', now), m, tr, s, n)
  {
    assert Tick(cfg, s', now).seen == s'.seen;
    if Lags(cfg, s', m, s, n) {
      SharedTick(cfg, s', m, s, n, now);
      ExtraTick(cfg, s', m, s, n, now);
    } else {
      var k: nat :| Deaf(tr, s'.seen, k);
      DeafExtends(tr, s'.seen, k, TickAt(now));
    }
    hide Deaf, Lags, Tick;
  }

  lemma FollowsRestart(cfg: Config, s': Runtime, m: nat, tr: seq<Event>, s: Runtime, n: nat)
    requires Follows(cfg, s', m, tr, s, n)
    ensures m <= n && Lags(cfg, ZERO, m, ZERO, n) && Lags(cfg, ZERO, m, s, n)
  {
  }

  /** Along two such runs, with no comeback in the first, the second one follows. */
  lemma {:induction false} Simulates(cfg: Config, tr: seq<Event>, tr': seq<Event>)
    requires Usable(cfg) && cfg.kind.Appeared? && Inserts(tr, tr', true) && NoComeback(tr)
    ensures Follows(cfg, Run(cfg, tr'), Latches(cfg, tr'), tr, Run(cfg, tr), Latches(cfg, tr))
    decreases |tr'|
  {
    if tr' == [] {
      assert tr == [];
    } else {
      hide Lags, Deaf, Follows, Observe, Tick, Sound, Latches, Accepted, ObserveStatus, NoComeback;
      LatchesStep(cfg, tr');
      var p' := Pre(tr');
      if tr != [] && Last(tr) == Last(tr') && Inserts(Pre(tr), p', true) {
        var q := Pre(tr);
        NoComebackStep(tr);
        Simulates(cfg, q, p');
        SoundRuns(cfg, q);
        SoundRuns(cfg, p');
        LatchesStep(cfg, tr);
        assert q + [Last(tr)] == tr;
        SharedStep(cfg, Run(cfg, p'), Latches(cfg, p'), q, Latches(cfg, q), Last(tr));
      } else {
        Simulates(cfg, tr, p');
        ExtraStep(cfg, Run(cfg, p'), Latches(cfg, p'), tr, Latches(cfg, tr), Last(tr'));
      }
    }
  }

  lemma SharedStep(cfg: Config, s': Runtime, m: nat, tr: seq<Event>, n: nat, e: Event)
    requires Usable(cfg) && cfg.kind.Appeared? && Sound(cfg, s') && Sound(cfg, Run(cfg, tr))
    requires Follows(cfg, s', m, tr, Run(cfg, tr), n) && NoComeback(tr + [e])
    ensures var s := Run(cfg, tr);
            Follows(cfg, Step(cfg, s', e), Bump(m, LatchesBy(cfg, s', e)),
                    tr + [e], Step(cfg, s, e), Bump(n, LatchesBy(cfg, s, e)))
  {
    hide Deaf, Observe, Tick, Sound, Accepted, ObserveStatus, NoComeback, Run;
    match e
    case Obs(o) => FollowsObservation(cfg, s', m, tr, Run(cfg, tr), n, o);
    case TickAt(now) => FollowsTick(cfg, s', m, tr, Run(cfg, tr), n, now);
    case Restart => FollowsRestart(cfg, s', m, tr, Run(cfg, tr), n);
  }

  lemma ExtraStep(cfg: Config, s': Runtime, m: nat, tr: seq<Event>, n: nat, e: Event)
    requires cfg.kind.Appeared? && !e.Obs? && Follows(cfg, s', m, tr, Run(cfg, tr), n)
    ensures Follows(cfg, Step(cfg, s', e), m, tr, Run(cfg, tr), n)
  {
    hide Deaf, Tick, Accepted, Run;
    match e
    case TickAt(now) => FollowsTick(cfg, s', m, tr, Run(cfg, tr), n, now);
    case Restart => FollowsRestart(cfg, s', m, tr, Run(cfg, tr), n);
  }

  /** Extra ticks alone: the second run lags behind, and refuses what the first one refuses. */
  lemma {:induction false} SimulatesTicks(cfg: Config, tr: seq<Event>, tr': seq<Event>)
    requires Usable(cfg) && cfg.kind.Appeared? && Inserts(tr, tr', false)
    ensures Lags(cfg, Run(cfg, tr'), Latches(cfg, tr'), Run(cfg, tr), Latches(cfg, tr))
    ensures Run(cfg, tr').seen == Run(cfg, tr).seen
    decreases |tr'|
  {
    if tr' == [] {
      assert tr == [];
    } else {
      hide Lags, Observe, Tick, Sound, Latches, Accepted, ObserveStatus;
      LatchesStep(cfg, tr');
      var p' := Pre(tr');
      if tr != [] && Last(tr) == Last(tr') && Inserts(Pre(tr), p', false) {
        var q := Pre(tr);
        SimulatesTicks(cfg, q, p');
        SoundRuns(cfg, q);
        SoundRuns(cfg, p');
        LatchesStep(cfg, tr);
        var s', m, s, n := Run(cfg, p'), Latches(cfg, p'), Run(cfg, q), Latches(cfg, q);
        match Last(tr)
        case Obs(o) =>
          SameStatus(s', s, o);
          SharedObservation(cfg, s', m, s, n, o);
        case TickAt(now) => SharedTick(cfg, s', m, s, n, now);
        case Restart => AnyRestart(cfg, s', m, s, n);
      } else {
        SimulatesTicks(cfg, tr, p');
        ExtraTick(cfg, Run(cfg, p'), Latches(cfg, p'), Run(cfg, tr), Latches(cfg, tr), Last(tr').now);
      }
    }
  }

  lemma SameStatus(s': Runtime, s: Runtime, o: Observation)
    requires s'.seen == s.seen
    ensures ObserveStatus(s', o) == ObserveStatus(s, o)
  {
  }

  /** Extra ticks, anywhere in the run of an appeared rule, never add a latched appearance;
      nor do extra restarts, anywhere in a run without comebacks, in particular in one that
      refuses no observation. */
  lemma NeverManufactures(cfg: Config, tr: seq<Event>, tr': seq<Event>, restarts: bool)
    requires Usable(cfg) && cfg.kind.Appeared? && Inserts(tr, tr', restarts)
    requires restarts ==> NoComeback(tr)
    ensures Latches(cfg, tr') <= Latches(cfg, tr)
  {
    if restarts {
      Simulates(cfg, tr, tr');
      FollowsRestart(cfg, Run(cfg, tr'), Latches(cfg, tr'), tr, Run(cfg, tr), Latches(cfg, tr));
    } else {
      SimulatesTicks(cfg, tr, tr');
      LagsCounts(cfg, Run(cfg, tr'), Latches(cfg, tr'), Run(cfg, tr), Latches(cfg, tr));
    }
  }

  lemma NoneRefusedNoComeback(tr: seq<Event>)
    requires NoneRefused(tr)
    ensures NoComeback(tr)
  {
  }
}
