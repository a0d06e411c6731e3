/**
 Two replays of the same samples, one of which restarts the process more often: the
 comparison of module `LosingSight` carried over to scenes.
 */
module ExtraRestarts {
  import opened Scenes
  import opened ReplayRuns
  import opened LosingSight
  import H = History
  import ReplayResults

  function DueRestarts(sc: Scene, i: nat): nat
    requires sc.samples != []
  {
    NextRestart(sc, i + 1) - NextRestart(sc, i)
  }

  /** `sc'` is `sc` with further restarts: no iteration takes fewer. */
  ghost predicate MoreRestarts(sc: Scene, sc': Scene) {
    && sc.samples != []
    && sc' == sc.(restarts := sc'.restarts)
    && forall i :: i >= 0 ==> DueRestarts(sc, i) <= DueRestarts(sc', i)
  }

  lemma {:induction false} InsertsReboots(m: nat, n: nat)
    requires m <= n
    ensures Inserts(Reboots(m), Reboots(n), true)
  {
    if m == n {
      InsertsItself(Reboots(m));
    } else {
      InsertsReboots(m, n - 1);
      InsertsExtra(Reboots(m), Reboots(n - 1), true, H.Restart);
    }
  }

  lemma {:induction false} SameButRestarts(sc: Scene, sc': Scene, rule: nat, i: nat, a: nat, b: nat)
    requires MoreRestarts(sc, sc') && a <= b <= |sc.samples|
    ensures NextSample(sc', i) == NextSample(sc, i) && NowAt(sc', i) == NowAt(sc, i)
    ensures Answers(sc', rule, a, b) == Answers(sc, rule, a, b)
  {
    assert Times(sc') == Times(sc);
    if i > 0 {
      SameButRestarts(sc, sc', rule, i - 1, a, b);
    } else if a < b {
      SameButRestarts(sc, sc', rule, i, a, b - 1);
    }
  }

  lemma {:induction false} LineInserts(sc: Scene, sc': Scene, rule: nat, i: nat)
    requires MoreRestarts(sc, sc')
    ensures Inserts(RuleLine(sc, rule, i), RuleLine(sc', rule, i), true)
  {
    hide RuleLine, Answers, Reboots, NextSample, NextRestart, NowAt, Inserts;
    if i == 0 {
      LineStarts(sc, rule);
      LineStarts(sc', rule);
      InsertsItself([H.Restart]);
    } else {
      LineInserts(sc, sc', rule, i - 1);
      RuleLineUnfolds(sc, rule, i - 1);
      RuleLineUnfolds(sc', rule, i - 1);
      var a, b := NextSample(sc, i - 1), NextSample(sc, i);
      TimelineUnfolds(sc, i - 1);
      SameButRestarts(sc, sc', rule, i - 1, a, b);
      SameButRestarts(sc, sc', rule, i, a, b);
      var x, x' := RuleLine(sc, rule, i - 1), RuleLine(sc', rule, i - 1);
      var m, m' := DueRestarts(sc, i - 1), DueRestarts(sc', i - 1);
      var tail := Answers(sc, rule, a, b) + [H.TickAt(NowAt(sc, i - 1))];
      InsertsReboots(m, m');
      InsertsItself(tail);
      InsertsConcat(x, x', Reboots(m), Reboots(m'));
      InsertsConcat(x + Reboots(m), x' + Reboots(m'), tail, tail);
      assert RuleLine(sc, rule, i) == x + Reboots(m) + tail;
      assert RuleLine(sc', rule, i) == x' + Reboots(m') + tail;
    }
  }

  lemma LineStarts(sc: Scene, rule: nat)
    requires sc.samples != []
    ensures RuleLine(sc, rule, 0) == [H.Restart]
  {
  }

  /** Restarting the process more often never adds a latched appearance to a replay. */
  lemma RestartsNeverManufacture(sc: Scene, sc': Scene, rule: nat, n: nat)
    requires Replayable(sc) && Ordered(sc) && Accepted(sc) && rule < |sc.rules| && sc.rules[rule].kind.Appeared?
    requires MoreRestarts(sc, sc')
    ensures Latches(sc.rules[rule], RuleLine(sc', rule, n)) <= Latches(sc.rules[rule], RuleLine(sc, rule, n))
  {
    AcceptedExactly(sc, |sc.rules|);
    LineInserts(sc, sc', rule, n);
    if n > 0 {
      ReplayResults.NoneRefusedInLine(sc, rule, n - 1);
      NoneRefusedNoComeback(RuleLine(sc, rule, n));
    } else {
      LineStarts(sc, rule);
    }
    hide RuleLine, Latches, Inserts;
    NeverManufactures(sc.rules[rule], RuleLine(sc, rule, n), RuleLine(sc', rule, n), true);
  }

  // ---------------------------------------------------------------- one more restart

  predicate Sorted(ts: seq<int>) {
    forall i, j :: 0 <= i < j < |ts| ==> ts[i] <= ts[j]
  }

  /** The first `m` of `ts` are due by `now`, and no other. */
  predicate Cut(ts: seq<int>, m: nat, now: int) {
    && m <= |ts|
    && (forall j :: 0 <= j < m ==> ts[j] <= now)
    && (forall j :: m <= j < |ts| ==> now < ts[j])
  }

  lemma {:induction false} RestartsCut(sc: Scene, i: nat)
    requires Replayable(sc) && Sorted(sc.restarts) && i > 0
    ensures Cut(sc.restarts, NextRestart(sc, i), NowAt(sc, i - 1))
  {
    hide Skip, NextSample, NextRestart, NowAt, Timeline;
    var now, m := NowAt(sc, i - 1), NextRestart(sc, i);
    TimelineStarts(sc);
    TimelineUnfolds(sc, i - 1);
    if i > 1 {
      RestartsCut(sc, i - 1);
      NowOrder(sc, i - 2, i - 1);
    }
    forall j | m <= j < |sc.restarts| ensures now < sc.restarts[j] {
      assert now < sc.restarts[m];
      assert j == m || sc.restarts[m] <= sc.restarts[j];
    }
  }

  /** `ts` with `t` put in at index `k`. */
  function With(ts: seq<int>, k: nat, t: int): seq<int>
    requires k <= |ts|
  {
    ts[..k] + [t] + ts[k..]
  }

  lemma CutWith(ts: seq<int>, k: nat, t: int, m: nat, m': nat, now: int)
    requires k <= |ts| && Sorted(With(ts, k, t)) && Cut(ts, m, now) && Cut(With(ts, k, t), m', now)
    ensures m' == if t <= now then m + 1 else m
  {
    var us := With(ts, k, t);
    assert us[k] == t;
    assert forall j :: 0 <= j < k ==> us[j] == ts[j];
    assert forall j :: k <= j < |ts| ==> us[j + 1] == ts[j];
    assert m < |ts| ==> us[if m < k then m else m + 1] == ts[m];
    assert m > 0 ==> us[if m - 1 < k then m - 1 else m] == ts[m - 1];
  }

  lemma NextRestartWith(sc: Scene, k: nat, t: int, i: nat)
    requires Replayable(sc) && k <= |sc.restarts| && Sorted(sc.restarts) && Sorted(With(sc.restarts, k, t))
    ensures NextRestart(sc.(restarts := With(sc.restarts, k, t)), i) ==
            NextRestart(sc, i) + if i > 0 && t <= NowAt(sc, i - 1) then 1 else 0
  {
    var sc' := sc.(restarts := With(sc.restarts, k, t));
    if i == 0 {
      TimelineStarts(sc);
      TimelineStarts(sc');
    } else {
      hide Sorted, With, Cut, NextRestart, Skip;
      RestartsCut(sc, i);
      RestartsCut(sc', i);
      assert NowAt(sc', i - 1) == NowAt(sc, i - 1);
      CutWith(sc.restarts, k, t, NextRestart(sc, i), NextRestart(sc', i), NowAt(sc, i - 1));
    }
  }

  /** Putting one more restart into a scene, in time order, is one way to restart more. */
  lemma OneMoreRestart(sc: Scene, k: nat, t: int)
    requires Replayable(sc) && k <= |sc.restarts| && Sorted(sc.restarts) && Sorted(With(sc.restarts, k, t))
    ensures MoreRestarts(sc, sc.(restarts := With(sc.restarts, k, t)))
  {
    hide Sorted, With, NextRestart, Skip, NowAt;
    forall i: nat ensures DueRestarts(sc, i) <= DueRestarts(sc.(restarts := With(sc.restarts, k, t)), i) {
      NextRestartWith(sc, k, t, i);
      NextRestartWith(sc, k, t, i + 1);
      TimelineUnfolds(sc, i);
      if i > 0 {
        TimelineUnfolds(sc, i - 1);
      }
    }
  }
}
