/**
 Latched appearances and reports of them, counted over whole runs.

 `pending` is one bit: a tick reports that something was latched since the tick before,
 not how often.  So a run can latch more appearances than it reports, and it does exactly
 if further ticks could have made it report more.
 */
module Reporting {
  import opened Machine
  import opened Options
  import opened History
  import opened LosingSight
  import Appeared

  /** How many ticks of a run report the rule. */
  function ReportCount(cfg: Config, tr: seq<Event>): nat {
    if tr == [] then 0
    else ReportCount(cfg, Pre(tr)) + if ReportsBy(cfg, Run(cfg, Pre(tr)), Last(tr)) then 1 else 0
  }

  predicate ReportsBy(cfg: Config, s: Runtime, e: Event) {
    e.TickAt? && Reports(cfg, s, e.now)
  }

  function One(b: bool): nat {
    if b then 1 else 0
  }

  /** No more is reported than was latched. */
  lemma {:induction false} NoMoreReportsThanLatches(cfg: Config, tr: seq<Event>)
    requires Usable(cfg) && cfg.kind.Appeared?
    ensures ReportCount(cfg, tr) + One(Run(cfg, tr).reaction.pending) <= Latches(cfg, tr)
  {
    if tr != [] {
      NoMoreReportsThanLatches(cfg, Pre(tr));
      SoundRuns(cfg, Pre(tr));
      Appeared.ArmedStep(cfg, tr);
    }
  }

  // ---------------------------------------------------------------- further ticks

  /** The run with a tick put right after every latched appearance. */
  function Prompt(cfg: Config, tr: seq<Event>): seq<Event> {
    if tr == [] then []
    else
      var latches := LatchesBy(cfg, Run(cfg, Pre(tr)), Last(tr));
      Prompt(cfg, Pre(tr)) + [Last(tr)] + if latches then [TickAt(Last(tr).o.at)] else []
  }

  function Drained(s: Runtime): Runtime {
    s.(reaction := s.reaction.(pending := false))
  }

  lemma RunStep(cfg: Config, tr: seq<Event>, e: Event)
    ensures Run(cfg, tr + [e]) == Step(cfg, Run(cfg, tr), e)
    ensures Latches(cfg, tr + [e]) == Latches(cfg, tr) + One(LatchesBy(cfg, Run(cfg, tr), e))
    ensures ReportCount(cfg, tr + [e]) == ReportCount(cfg, tr) + One(ReportsBy(cfg, Run(cfg, tr), e))
  {
    assert Pre(tr + [e]) == tr;
  }

  /** `pending` has no influence on anything but reports. */
  lemma StepDrained(cfg: Config, s: Runtime, e: Event)
    requires Usable(cfg) && cfg.kind.Appeared? && Sound(cfg, s)
    ensures LatchesBy(cfg, Drained(s), e) == LatchesBy(cfg, s, e)
    ensures Drained(Step(cfg, Drained(s), e)) == Drained(Step(cfg, s, e))
    ensures !ReportsBy(cfg, Drained(s), e)
    ensures Step(cfg, Drained(s), e).reaction.pending <==> LatchesBy(cfg, s, e)
  {
  }

  /** A tick at the time of an observation that was accepted just drains. */
  lemma TickAtOnce(cfg: Config, s: Runtime, o: Observation)
    requires Usable(cfg) && cfg.kind.Appeared? && LatchesBy(cfg, s, Obs(o))
    ensures Step(cfg, Step(cfg, s, Obs(o)), TickAt(o.at)) == Drained(Step(cfg, s, Obs(o)))
    ensures ReportsBy(cfg, Step(cfg, s, Obs(o)), TickAt(o.at)) <==> Step(cfg, s, Obs(o)).reaction.pending
    ensures !LatchesBy(cfg, Step(cfg, s, Obs(o)), TickAt(o.at))
  {
  }

  /** One step of a run that is drained after every latched appearance. */
  lemma PromptStep(cfg: Config, x: seq<Event>, s: Runtime, e: Event)
    requires Usable(cfg) && cfg.kind.Appeared? && Sound(cfg, s) && Run(cfg, x) == Drained(s)
    ensures var latches := LatchesBy(cfg, s, e);
            var y := x + [e] + if latches then [TickAt(e.o.at)] else [];
            && Run(cfg, y) == Drained(Step(cfg, s, e))
            && ReportCount(cfg, y) == ReportCount(cfg, x) + One(latches)
            && Latches(cfg, y) == Latches(cfg, x) + One(latches)
  {
    RunStep(cfg, x, e);
    StepDrained(cfg, s, e);
    if LatchesBy(cfg, s, e) {
      TickAtOnce(cfg, Drained(s), e.o);
      RunStep(cfg, x + [e], TickAt(e.o.at));
    } else {
      assert x + [e] + [] == x + [e];
    }
    hide Step, LatchesBy, ReportsBy, Run, Latches, ReportCount;
  }

  /** With a tick right after every latched appearance the run is otherwise the same, and
      every appearance is reported. */
  lemma {:induction false} PromptReportsAll(cfg: Config, tr: seq<Event>)
    requires Usable(cfg) && cfg.kind.Appeared?
    ensures Run(cfg, Prompt(cfg, tr)) == Drained(Run(cfg, tr))
    ensures ReportCount(cfg, Prompt(cfg, tr)) == Latches(cfg, Prompt(cfg, tr)) == Latches(cfg, tr)
  {
    if tr != [] {
      PromptReportsAll(cfg, Pre(tr));
      SoundRuns(cfg, Pre(tr));
      PromptStep(cfg, Prompt(cfg, Pre(tr)), Run(cfg, Pre(tr)), Last(tr));
      hide Step, LatchesBy, ReportsBy, Sound, Drained;
    }
  }

  lemma {:induction false} PromptInserts(cfg: Config, tr: seq<Event>)
    ensures Inserts(tr, Prompt(cfg, tr), false)
  {
    if tr != [] {
      PromptInserts(cfg, Pre(tr));
      var x, e := Prompt(cfg, Pre(tr)), Last(tr);
      assert Pre(tr) + [e] == tr;
      InsertsShared(Pre(tr), x, false, e);
      if LatchesBy(cfg, Run(cfg, Pre(tr)), e) {
        InsertsExtra(tr, x + [e], false, TickAt(e.o.at));
      } else {
        assert x + [e] + [] == x + [e];
      }
      hide LatchesBy, Run;
    }
  }

  function When(e: Event): int
    requires !e.Restart?
  {
    if e.Obs? then e.o.at else e.now
  }

  /** Observations and ticks are told in the order of their times. */
  predicate Clocked(tr: seq<Event>) {
    forall i, j :: 0 <= i < j < |tr| && !tr[i].Restart? && !tr[j].Restart? ==> When(tr[i]) <= When(tr[j])
  }

  /** Nothing in `tr` is later than something that comes after it. */
  predicate UpTo(tr: seq<Event>, e: Event) {
    e.Restart? || forall i :: 0 <= i < |tr| && !tr[i].Restart? ==> When(tr[i]) <= When(e)
  }

  lemma UpToExtends(x: seq<Event>, e: Event)
    requires Clocked(x) && UpTo(x, e)
    ensures Clocked(x + [e])
    ensures forall f :: UpTo(x + [e], f) <==> UpTo(x, f) && (e.Restart? || f.Restart? || When(e) <= When(f))
  {
    forall f ensures UpTo(x + [e], f) <==> UpTo(x, f) && (e.Restart? || f.Restart? || When(e) <= When(f)) {
      var y := x + [e];
      assert y[|x|] == e;
      if UpTo(y, f) {
        assert forall i :: 0 <= i < |x| ==> y[i] == x[i];
      }
    }
  }

  lemma ClockedSplits(tr: seq<Event>)
    requires tr != [] && Clocked(tr)
    ensures Clocked(Pre(tr)) && UpTo(Pre(tr), Last(tr)) && Pre(tr) + [Last(tr)] == tr
  {
  }

  lemma {:induction false} PromptClocked(cfg: Config, tr: seq<Event>)
    requires Clocked(tr)
    ensures Clocked(Prompt(cfg, tr))
    ensures forall e :: UpTo(tr, e) ==> UpTo(Prompt(cfg, tr), e)
  {
    if tr != [] {
      hide UpTo, Clocked, Run, Step;
      var p, x, e := Pre(tr), Prompt(cfg, Pre(tr)), Last(tr);
      ClockedSplits(tr);
      PromptClocked(cfg, p);
      UpToExtends(p, e);
      UpToExtends(x, e);
      if LatchesBy(cfg, Run(cfg, p), e) {
        UpToExtends(x + [e], TickAt(e.o.at));
      } else {
        assert x + [e] + [] == x + [e];
      }
    }
  }

  /** `tr'` is `tr` with further ticks, which are in order if everything in `tr` is. */
  predicate MoreTicks(tr: seq<Event>, tr': seq<Event>) {
    Inserts(tr, tr', false) && (Clocked(tr) ==> Clocked(tr'))
  }

  /** Further ticks never make a run report more if and only if it reports every appearance
      that it latches. */
  lemma FurtherTicksExactly(cfg: Config, tr: seq<Event>)
    requires Usable(cfg) && cfg.kind.Appeared?
    ensures (forall tr' :: MoreTicks(tr, tr') ==> ReportCount(cfg, tr') <= ReportCount(cfg, tr)) <==>
            ReportCount(cfg, tr) == Latches(cfg, tr)
  {
    NoMoreReportsThanLatches(cfg, tr);
    var p := Prompt(cfg, tr);
    PromptReportsAll(cfg, tr);
    PromptInserts(cfg, tr);
    if Clocked(tr) {
      PromptClocked(cfg, tr);
    }
    assert MoreTicks(tr, p);
    forall tr' | MoreTicks(tr, tr') ensures ReportCount(cfg, tr') <= Latches(cfg, tr) {
      NoMoreReportsThanLatches(cfg, tr');
      NeverManufactures(cfg, tr, tr', false);
    }
  }

  // ---------------------------------------------------------------- counting

  lemma {:induction false} LatchesMonotone(cfg: Config, tr: seq<Event>, m: nat)
    requires m <= |tr|
    ensures Latches(cfg, tr[..m]) <= Latches(cfg, tr)
  {
    if m == |tr| {
      assert tr[..m] == tr;
    } else {
      LatchesMonotone(cfg, Pre(tr), m);
      assert Pre(tr)[..m] == tr[..m];
    }
  }

  lemma LatchRaises(cfg: Config, tr: seq<Event>, m: nat, k: nat)
    requires m <= k < |tr| && Appeared.LatchesAt(cfg, tr, k)
    ensures Latches(cfg, tr[..m]) < Latches(cfg, tr[..k + 1])
  {
    var p := tr[..k + 1];
    LatchesMonotone(cfg, tr[..k], m);
    assert Pre(p) == tr[..k] && tr[..k][..m] == tr[..m];
    assert p[..k] == tr[..k] && p[..k + 1] == p;
    LatchesCounts(cfg, p);
    hide Latches, Run;
  }

  /** Where the last of the appearances latched since step `m` was latched. */
  lemma {:induction false} LastLatch(cfg: Config, tr: seq<Event>, m: nat) returns (k: nat)
    requires m <= |tr| && Latches(cfg, tr[..m]) < Latches(cfg, tr)
    ensures m <= k < |tr| && Appeared.LatchesAt(cfg, tr, k)
    ensures Latches(cfg, tr[..k]) + 1 == Latches(cfg, tr)
  {
    k := |tr| - 1;
    assert tr[..|tr|] == tr && Pre(tr) == tr[..k];
    LatchesCounts(cfg, tr);
    hide Latches, Run;
    if !Appeared.LatchesAt(cfg, tr, k) {
      assert m <= k && tr[..k][..m] == tr[..m];
      k := LastLatch(cfg, Pre(tr), m);
      assert Pre(tr)[..k] == tr[..k] && Pre(tr)[..k + 1] == tr[..k + 1];
    }
  }

  /** While nothing drains, something is pending exactly if something was latched. */
  lemma {:induction false} PendingIsLatched(cfg: Config, tr: seq<Event>, m: nat)
    requires Usable(cfg) && cfg.kind.Appeared? && m <= |tr|
    requires !Run(cfg, tr[..m]).reaction.pending && forall j :: m <= j < |tr| ==> tr[j].Obs?
    ensures Run(cfg, tr).reaction.pending <==> Latches(cfg, tr[..m]) < Latches(cfg, tr)
  {
    if m == |tr| {
      assert tr[..m] == tr;
    } else {
      assert Pre(tr)[..m] == tr[..m];
      PendingIsLatched(cfg, Pre(tr), m);
      LatchesMonotone(cfg, Pre(tr), m);
      SoundRuns(cfg, Pre(tr));
      Appeared.ArmedStep(cfg, tr);
    }
  }

  // ---------------------------------------------------------------- an example

  function Parcel(): Config {
    Config("parcel", Kind.Appeared, Yes, 1, 0, 10, 0)
  }

  /** Absent, present, absent and present again, and then the tick. */
  function TwoArrivals(): seq<Event> {
    [Seen(1, No), Seen(2, Yes), Seen(3, No), Seen(4, Yes), TickAt(5)]
  }

  /** The same with a tick between the two arrivals. */
  function TwoArrivalsTicked(): seq<Event> {
    [Seen(1, No), Seen(2, Yes), TickAt(2), Seen(3, No), Seen(4, Yes), TickAt(5)]
  }

  /** The state after a run, how much it latched and how much it reported. */
  predicate Leads(cfg: Config, tr: seq<Event>, s: Runtime, latched: nat, reported: nat) {
    Run(cfg, tr) == s && Latches(cfg, tr) == latched && ReportCount(cfg, tr) == reported
  }

  lemma LeadsOn(cfg: Config, tr: seq<Event>, s: Runtime, latched: nat, reported: nat, e: Event)
    requires Leads(cfg, tr, s, latched, reported)
    ensures Leads(cfg, tr + [e], Step(cfg, s, e),
                  latched + One(LatchesBy(cfg, s, e)), reported + One(ReportsBy(cfg, s, e)))
  {
    RunStep(cfg, tr, e);
  }

  /** What the four observations of the example lead to, ticked in between or not. */
  lemma ArrivalsLead(x: seq<Event>, s: Runtime, latched: nat, reported: nat)
    requires Leads(Parcel(), x, s, latched, reported) && s.seen.Some? && s.seen.value.frame < 3 && s.seen.value.at < 3
    requires s.confirmed == Yes && s.candidate.value == Yes && !s.reaction.armed
    ensures var y := x + [Seen(3, No)] + [Seen(4, Yes)] + [TickAt(5)];
            && Latches(Parcel(), y) == latched + 1
            && ReportCount(Parcel(), y) == reported + 1
  {
    var cfg := Parcel();
    LeadsOn(cfg, x, s, latched, reported, Seen(3, No));
    var s3 := Step(cfg, s, Seen(3, No));
    LeadsOn(cfg, x + [Seen(3, No)], s3, latched, reported, Seen(4, Yes));
    var s4 := Step(cfg, s3, Seen(4, Yes));
    LeadsOn(cfg, x + [Seen(3, No)] + [Seen(4, Yes)], s4, latched + 1, reported, TickAt(5));
    hide Run, Latches, ReportCount;
  }

  lemma FirstArrivalLeads() returns (s: Runtime)
    ensures Leads(Parcel(), [Seen(1, No)] + [Seen(2, Yes)], s, 1, 0)
    ensures s.confirmed == Yes && s.candidate.value == Yes && !s.reaction.armed && s.reaction.pending
    ensures s.seen == Some(Stamp(2, 2))
  {
    var cfg := Parcel();
    LeadsOn(cfg, [], ZERO, 0, 0, Seen(1, No));
    assert [] + [Seen(1, No)] == [Seen(1, No)];
    var s1 := Step(cfg, ZERO, Seen(1, No));
    LeadsOn(cfg, [Seen(1, No)], s1, 0, 0, Seen(2, Yes));
    s := Step(cfg, s1, Seen(2, Yes));
  }

  lemma ArrivalsInserted()
    ensures Inserts(TwoArrivals(), TwoArrivalsTicked(), false)
  {
    hide Inserts;
    var a, t := [Seen(1, No)] + [Seen(2, Yes)], [TickAt(2)];
    InsertsItself(a);
    InsertsExtra(a, a, false, TickAt(2));
    InsertsShared(a, a + t, false, Seen(3, No));
    InsertsShared(a + [Seen(3, No)], a + t + [Seen(3, No)], false, Seen(4, Yes));
    InsertsShared(a + [Seen(3, No)] + [Seen(4, Yes)], a + t + [Seen(3, No)] + [Seen(4, Yes)], false, TickAt(5));
    assert TwoArrivals() == a + [Seen(3, No)] + [Seen(4, Yes)] + [TickAt(5)];
    assert TwoArrivalsTicked() == a + t + [Seen(3, No)] + [Seen(4, Yes)] + [TickAt(5)];
  }

  /** Two appearances latched between two ticks are one report, and a tick between them
      makes them two. */
  lemma TwoArrivalsOneReport()
    ensures Usable(Parcel()) && MoreTicks(TwoArrivals(), TwoArrivalsTicked())
    ensures Latches(Parcel(), TwoArrivals()) == 2 && ReportCount(Parcel(), TwoArrivals()) == 1
    ensures Latches(Parcel(), TwoArrivalsTicked()) == 2 && ReportCount(Parcel(), TwoArrivalsTicked()) == 2
  {
    hide Run, Latches, ReportCount, Inserts;
    var a := [Seen(1, No)] + [Seen(2, Yes)];
    var s := FirstArrivalLeads();
    ArrivalsLead(a, s, 1, 0);
    LeadsOn(Parcel(), a, s, 1, 0, TickAt(2));
    ArrivalsLead(a + [TickAt(2)], Step(Parcel(), s, TickAt(2)), 1, 1);
    ArrivalsInserted();
    assert TwoArrivals() == a + [Seen(3, No)] + [Seen(4, Yes)] + [TickAt(5)];
    assert TwoArrivalsTicked() == a + [TickAt(2)] + [Seen(3, No)] + [Seen(4, Yes)] + [TickAt(5)];
  }

  /** Absent, then a confirmed `unknown`, then present. */
  function ThroughUnknown(): seq<Event> {
    [Seen(1, No)] + [Seen(2, Unknown)] + [Seen(3, Yes)]
  }

  lemma AbsenceLeads() returns (s: Runtime)
    ensures Leads(Parcel(), [Seen(1, No)], s, 0, 0)
    ensures s.confirmed == s.candidate.value == No && s.reaction.armed && s.seen == Some(Stamp(1, 1))
  {
    assert Leads(Parcel(), [], ZERO, 0, 0);
    hide Run, Latches, ReportCount;
    assert [] + [Seen(1, No)] == [Seen(1, No)];
    LeadsOn(Parcel(), [], ZERO, 0, 0, Seen(1, No));
    s := Step(Parcel(), ZERO, Seen(1, No));
  }

  lemma UnknownLeads(x: seq<Event>, s: Runtime) returns (t: Runtime)
    requires Leads(Parcel(), x, s, 0, 0) && s.reaction.armed && s.seen == Some(Stamp(1, 1))
    requires s.confirmed == s.candidate.value == No
    ensures Leads(Parcel(), x + [Seen(2, Unknown)], t, 0, 0)
    ensures t.confirmed == t.candidate.value == Unknown && t.reaction.armed && t.seen == Some(Stamp(2, 2))
  {
    hide Run, Latches, ReportCount;
    LeadsOn(Parcel(), x, s, 0, 0, Seen(2, Unknown));
    t := Step(Parcel(), s, Seen(2, Unknown));
  }

  /** A confirmed `unknown` does not disarm. */
  lemma UnknownDoesNotDisarm()
    ensures Run(Parcel(), ThroughUnknown()[..2]).confirmed == Unknown
    ensures Latches(Parcel(), ThroughUnknown()) == 1
  {
    hide Run, Latches, ReportCount;
    var s1 := AbsenceLeads();
    var s2 := UnknownLeads([Seen(1, No)], s1);
    LeadsOn(Parcel(), [Seen(1, No)] + [Seen(2, Unknown)], s2, 0, 0, Seen(3, Yes));
    assert ThroughUnknown()[..2] == [Seen(1, No)] + [Seen(2, Unknown)];
  }

  // ---------------------------------------------------------------- a refused observation

  /** An absence that comes too late to be accepted, between two sightings. */
  function LateAbsence(): seq<Event> {
    [Seen(2, Yes)] + [Seen(1, No)] + [Seen(3, Yes)]
  }

  /** The same with a restart that makes the rule forget what it would have refused. */
  function LateAbsenceRestarted(): seq<Event> {
    [Seen(2, Yes)] + [Restart] + [Seen(1, No)] + [Seen(3, Yes)]
  }

  /** Where an observation is refused, a restart before it can add an appearance. */
  lemma RestartAcceptsTheRefused()
    ensures Inserts(LateAbsence(), LateAbsenceRestarted(), true) && !NoneRefused(LateAbsence())
    ensures Latches(Parcel(), LateAbsence()) == 0 && Latches(Parcel(), LateAbsenceRestarted()) == 1
  {
    hide Run, Latches, ReportCount, Inserts, NoneRefused, Step, LatchesBy, ReportsBy;
    var cfg, a := Parcel(), [Seen(2, Yes)];
    var s := SightingLeads();
    LeadsOn(cfg, a, s, 0, 0, Seen(1, No));
    LeadsOn(cfg, a + [Seen(1, No)], s, 0, 0, Seen(3, Yes));
    LeadsOn(cfg, a, s, 0, 0, Restart);
    RestartedLeads(a + [Restart]);
    RefusesTheLate();
    LateInserted();
  }

  /** A sighting to begin with arms nothing, and what is older is refused. */
  lemma SightingLeads() returns (s: Runtime)
    ensures Leads(Parcel(), [Seen(2, Yes)], s, 0, 0)
    ensures Step(Parcel(), s, Seen(1, No)) == s && !LatchesBy(Parcel(), s, Seen(1, No))
    ensures !ReportsBy(Parcel(), s, Seen(1, No)) && !LatchesBy(Parcel(), s, Seen(3, Yes))
    ensures Step(Parcel(), s, Restart) == ZERO
    ensures !LatchesBy(Parcel(), s, Restart) && !ReportsBy(Parcel(), s, Restart)
  {
    assert Leads(Parcel(), [], ZERO, 0, 0);
    hide Run, Latches, ReportCount;
    assert [] + [Seen(2, Yes)] == [Seen(2, Yes)];
    LeadsOn(Parcel(), [], ZERO, 0, 0, Seen(2, Yes));
    s := Step(Parcel(), ZERO, Seen(2, Yes));
  }

  lemma RestartedLeads(x: seq<Event>)
    requires Leads(Parcel(), x, ZERO, 0, 0)
    ensures Latches(Parcel(), x + [Seen(1, No)] + [Seen(3, Yes)]) == 1
  {
    hide Run, Latches, ReportCount;
    LeadsOn(Parcel(), x, ZERO, 0, 0, Seen(1, No));
    LeadsOn(Parcel(), x + [Seen(1, No)], Step(Parcel(), ZERO, Seen(1, No)), 0, 0, Seen(3, Yes));
  }

  lemma RefusesTheLate()
    ensures !NoneRefused(LateAbsence())
  {
    var tr, a := LateAbsence(), [Seen(2, Yes)];
    assert tr[..1] == a && Pre(a) == [] && Accepted(a) == [a[0].o];
    assert !AcceptsAt(tr, 1);
  }

  lemma LateInserted()
    ensures Inserts(LateAbsence(), LateAbsenceRestarted(), true)
  {
    hide Inserts;
    var a := [Seen(2, Yes)];
    InsertsItself(a);
    InsertsExtra(a, a, true, Restart);
    InsertsShared(a, a + [Restart], true, Seen(1, No));
    InsertsShared(a + [Seen(1, No)], a + [Restart] + [Seen(1, No)], true, Seen(3, Yes));
  }
}
