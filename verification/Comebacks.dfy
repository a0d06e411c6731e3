/**
 When restarts can add an appearance: exactly where an observation was refused that could
 have been followed up.

 `LosingSight.NeverManufactures` is one half.  For the other half, whatever the frames and
 times of a run with a comeback are, there are values and a rule for which one more restart
 adds an appearance.
 */
module Comebacks {
  import opened Machine
  import opened Options
  import opened History
  import opened LosingSight
  import Appeared

  /** The same events but for the values that were observed. */
  predicate SameStamp(e: Event, f: Event) {
    match e
    case Obs(o) => f.Obs? && f.o.frame == o.frame && f.o.at == o.at
    case TickAt(_) => f == e
    case Restart => f == e
  }

  predicate SameStamps(tr: seq<Event>, x: seq<Event>) {
    |x| == |tr| && forall i :: 0 <= i < |tr| ==> SameStamp(tr[i], x[i])
  }

  lemma {:induction false} SameAccepted(tr: seq<Event>, x: seq<Event>)
    requires SameStamps(tr, x)
    ensures var h, g := Accepted(tr), Accepted(x);
            |h| == |g| && forall i :: 0 <= i < |h| ==> h[i].frame == g[i].frame && h[i].at == g[i].at
  {
    if tr != [] {
      assert SameStamp(tr[|tr| - 1], x[|tr| - 1]);
      SameAccepted(Pre(tr), Pre(x));
    }
  }

  /** What is refused is a matter of frames and times. */
  lemma SameRefused(tr: seq<Event>, x: seq<Event>, k: nat)
    requires SameStamps(tr, x) && k < |tr|
    ensures AcceptsAt(x, k) == AcceptsAt(tr, k)
  {
    SameAccepted(tr[..k], x[..k]);
    assert SameStamp(tr[k], x[k]);
    hide Accepted;
  }

  lemma SameComebacks(tr: seq<Event>, x: seq<Event>)
    requires SameStamps(tr, x) && NoComeback(tr)
    ensures NoComeback(x)
  {
    hide AcceptsAt;
    forall k, m | 0 <= k < m < |x| ensures !Comeback(x, k, m) {
      SameRefused(tr, x, k);
      assert SameStamp(tr[k], x[k]) && SameStamp(tr[m], x[m]);
      assert !Comeback(tr, k, m);
      assert forall j :: k < j < m ==> SameStamp(tr[j], x[j]);
    }
  }

  // ---------------------------------------------------------------- the other half

  /** The run with an absence at `k` and presence everywhere else. */
  function Recast(tr: seq<Event>, k: nat): seq<Event> {
    seq(|tr|, i requires 0 <= i < |tr| =>
      if tr[i].Obs? then Obs(tr[i].o.(value := if i == k then No else Yes)) else tr[i])
  }

  /** More than any tick is later than `at`. */
  function GapOver(tr: seq<Event>, at: int): (gap: int)
    ensures gap > 0
    ensures forall i :: 0 <= i < |tr| && tr[i].TickAt? ==> tr[i].now - at <= gap
  {
    if tr == [] then 1
    else
      var gap := GapOver(Pre(tr), at);
      if Last(tr).TickAt? && Last(tr).now - at > gap then Last(tr).now - at else gap
  }

  /** A rule that takes every observation at its word. */
  function Credulous(gap: int): Config {
    Config("any", Kind.Appeared, Yes, 1, 0, gap, 0)
  }

  /** An absence that is refused is never confirmed, so nothing is latched. */
  lemma {:induction false} RefusedLatchesNothing(cfg: Config, x: seq<Event>, k: nat, n: nat)
    requires Usable(cfg) && cfg.kind.Appeared? && cfg.target == Yes && k < |x| && !AcceptsAt(x, k) && n <= |x|
    requires forall i :: 0 <= i < |x| && x[i].Obs? && i != k ==> x[i].o.value == Yes
    ensures Latches(cfg, x[..n]) == 0
  {
    if n > 0 {
      RefusedLatchesNothing(cfg, x, k, n - 1);
      var p := x[..n];
      StepsOfPrefix(cfg, x, n);
      assert Pre(p) == x[..n - 1];
      LatchesCounts(cfg, p);
      hide Latches, AcceptsAt, Accepted, Run;
      forall j | 0 <= j < |p| ensures !ConfirmsAt(cfg, p, j, OppositeOf(cfg.target)) {
        assert AcceptsAt(p, j) == AcceptsAt(x, j) && p[j] == x[j];
      }
      Appeared.SilentUntilAbsence(cfg, p);
    }
  }

  /** The rule has confirmed the absence that it saw last, at the stamp given. */
  predicate Waiting(s: Runtime, seen: Stamp) {
    && s.confirmed == No && s.candidate.value == No && s.reaction.armed && s.seen == Some(seen)
  }

  /** What it does next: wait on, or latch. */
  lemma WaitsOn(cfg: Config, s: Runtime, seen: Stamp, e: Event)
    requires cfg == Credulous(cfg.maxGap) && Waiting(s, seen)
    requires e.Obs? ==> e.o.value == Yes
    requires e.TickAt? ==> e.now - seen.at <= cfg.maxGap
    requires !e.Restart?
    ensures LatchesBy(cfg, s, e) || Waiting(Step(cfg, s, e), seen)
    ensures e.Obs? && e.o.frame != seen.frame && seen.at <= e.o.at ==> LatchesBy(cfg, s, e)
  {
  }

  lemma WaitsAfterRestart(cfg: Config, e: Event)
    requires cfg == Credulous(cfg.maxGap) && e.Obs? && e.o.value == No
    ensures Waiting(Step(cfg, ZERO, e), Stamp(e.o.frame, e.o.at))
  {
  }

  lemma StepOn(cfg: Config, tr: seq<Event>, e: Event)
    ensures Run(cfg, tr + [e]) == Step(cfg, Run(cfg, tr), e)
    ensures Latches(cfg, tr + [e]) == Bump(Latches(cfg, tr), LatchesBy(cfg, Run(cfg, tr), e))
  {
    assert Pre(tr + [e]) == tr;
  }

  /** After a restart right before the absence at `k`: by step `n` the rule has latched, or it
      waits still. */
  lemma {:induction false} WaitsOrLatched(cfg: Config, x: seq<Event>, k: nat, n: nat)
    requires cfg == Credulous(cfg.maxGap) && k < n <= |x| && x[k].Obs? && x[k].o.value == No
    requires forall i :: k < i < n ==> !x[i].Restart? && (x[i].Obs? ==> x[i].o.value == Yes)
    requires forall i :: k < i < n && x[i].TickAt? ==> x[i].now - x[k].o.at <= cfg.maxGap
    ensures var y := x[..k] + [Restart] + x[k..n];
            Latches(cfg, y) > 0 || Waiting(Run(cfg, y), Stamp(x[k].o.frame, x[k].o.at))
  {
    hide Run, Latches, LatchesBy, Waiting;
    var b := x[..k] + [Restart];
    if n == k + 1 {
      StepOn(cfg, x[..k], Restart);
      StepOn(cfg, b, x[k]);
      WaitsAfterRestart(cfg, x[k]);
      assert b + x[k..n] == b + [x[k]];
    } else {
      WaitsOrLatched(cfg, x, k, n - 1);
      var y := b + x[k..n - 1];
      assert b + x[k..n] == y + [x[n - 1]];
      StepOn(cfg, y, x[n - 1]);
      if Waiting(Run(cfg, y), Stamp(x[k].o.frame, x[k].o.at)) {
        WaitsOn(cfg, Run(cfg, y), Stamp(x[k].o.frame, x[k].o.at), x[n - 1]);
      }
    }
  }

  /** The run with one more restart, right before `k`. */
  function Restarted(x: seq<Event>, k: nat): seq<Event>
    requires k <= |x|
  {
    x[..k] + [Restart] + x[k..]
  }

  lemma RestartedInserts(x: seq<Event>, k: nat)
    requires k <= |x|
    ensures Inserts(x, Restarted(x, k), true)
  {
    hide Inserts;
    InsertsItself(x[..k]);
    InsertsExtra(x[..k], x[..k], true, Restart);
    InsertsItself(x[k..]);
    InsertsConcat(x[..k], x[..k] + [Restart], x[k..], x[k..]);
    assert x[..k] + x[k..] == x;
  }

  lemma {:induction false} LatchesGrow(cfg: Config, a: seq<Event>, b: seq<Event>)
    ensures Latches(cfg, a) <= Latches(cfg, a + b)
  {
    if b == [] {
      assert a + b == a;
    } else {
      LatchesGrow(cfg, a, Pre(b));
      assert a + b == (a + Pre(b)) + [Last(b)];
      StepOn(cfg, a + Pre(b), Last(b));
    }
  }

  /** What is true of the recast run, seen from the observation at `k`. */
  lemma RecastIs(tr: seq<Event>, k: nat, m: nat)
    requires Comeback(tr, k, m)
    ensures var x := Recast(tr, k);
            && SameStamps(tr, x) && x[k].Obs? && x[k].o.value == No && !AcceptsAt(x, k)
            && (forall i :: 0 <= i < |x| && x[i].Obs? && i != k ==> x[i].o.value == Yes)
            && (forall i :: k < i < m ==> !x[i].Restart?)
            && (forall i :: 0 <= i < |x| && x[i].TickAt? ==> x[i].now - x[k].o.at <= GapOver(tr, tr[k].o.at))
            && x[m].Obs? && x[m].o.frame != x[k].o.frame && x[k].o.at <= x[m].o.at
  {
    SameRefused(tr, Recast(tr, k), k);
    hide AcceptsAt, GapOver;
  }

  /** A restart right before an absence that nothing follows up but sightings. */
  lemma RestartLatches(cfg: Config, x: seq<Event>, k: nat, m: nat)
    requires cfg == Credulous(cfg.maxGap) && k < m < |x| && x[k].Obs? && x[k].o.value == No
    requires forall i :: k < i < m ==> !x[i].Restart? && (x[i].Obs? ==> x[i].o.value == Yes)
    requires forall i :: k < i < m && x[i].TickAt? ==> x[i].now - x[k].o.at <= cfg.maxGap
    requires x[m].Obs? && x[m].o.value == Yes && x[m].o.frame != x[k].o.frame && x[k].o.at <= x[m].o.at
    ensures Latches(cfg, Restarted(x, k)) > 0
  {
    hide Latches, Run, LatchesBy, Waiting;
    WaitsOrLatched(cfg, x, k, m);
    var y := x[..k] + [Restart] + x[k..m];
    if Latches(cfg, y) == 0 {
      WaitsOn(cfg, Run(cfg, y), Stamp(x[k].o.frame, x[k].o.at), x[m]);
    }
    StepOn(cfg, y, x[m]);
    LatchesGrow(cfg, y + [x[m]], x[m + 1..]);
    assert Restarted(x, k) == y + [x[m]] + x[m + 1..];
  }

  /** Where there is a comeback, a restart right before the refused observation adds the
      first appearance of the recast run. */
  lemma ComebackManufactures(tr: seq<Event>, k: nat, m: nat) returns (cfg: Config)
    requires Comeback(tr, k, m)
    ensures Usable(cfg) && cfg.kind.Appeared? && SameStamps(tr, Recast(tr, k))
    ensures Latches(cfg, Recast(tr, k)) == 0 < Latches(cfg, Restarted(Recast(tr, k), k))
  {
    var x := Recast(tr, k);
    RecastIs(tr, k, m);
    hide Latches, AcceptsAt, Recast, GapOver, SameStamps, Restarted;
    cfg := Credulous(GapOver(tr, tr[k].o.at));
    RefusedLatchesNothing(cfg, x, k, |x|);
    assert x[..|x|] == x;
    RestartLatches(cfg, x, k, m);
  }

  /** Whether restarts can add appearances is a matter of frames and times alone: they never
      do, for any rule and whatever was seen, if and only if there is no comeback. */
  lemma RestartsExactly(tr: seq<Event>)
    ensures NoComeback(tr) <==>
            forall cfg, x, x' ::
              Usable(cfg) && cfg.kind.Appeared? && SameStamps(tr, x) && Inserts(x, x', true) ==>
                Latches(cfg, x') <= Latches(cfg, x)
  {
    if NoComeback(tr) {
      forall cfg, x, x' | Usable(cfg) && cfg.kind.Appeared? && SameStamps(tr, x) && Inserts(x, x', true)
        ensures Latches(cfg, x') <= Latches(cfg, x)
      {
        SameComebacks(tr, x);
        NeverManufactures(cfg, x, x', true);
      }
    } else {
      var k, m :| 0 <= k < m < |tr| && Comeback(tr, k, m);
      var cfg := ComebackManufactures(tr, k, m);
      RestartedInserts(Recast(tr, k), k);
      assert Latches(cfg, Recast(tr, k)) < Latches(cfg, Restarted(Recast(tr, k), k));
    }
    hide Latches, Inserts, SameStamps, NoComeback, Comeback;
  }
}
