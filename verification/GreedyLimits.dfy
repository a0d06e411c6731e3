/**
 When the greedy matcher is optimal: exactly when both ends of a rule's match windows are in
 order.  `Matching.GreedyIsOptimal` is one half; here is the other, by lists of detections
 for which a larger assignment exists.
 */
module GreedyLimits {
  import opened Options
  import opened Scenes
  import opened Matching

  /** No match window of the rule is empty, as in every scene that a manifest describes. */
  predicate NoEmptyWindow(truth: seq<Truth>, rule: nat) {
    forall t :: 0 <= t < |truth| && truth[t].rule == rule ==> Left(truth[t]) <= Right(truth[t])
  }

  /** No assignment of these detections is larger than the one the matcher finds. */
  ghost predicate Optimal(truth: seq<Truth>, dets: seq<Detection>, rule: nat) {
    forall m :: Assignment(truth, dets, rule, 0, {}, m) ==> |m| <= |Greedy(truth, dets, rule, |dets|)|
  }

  // ---------------------------------------------------------------- lists of detections

  /** What the matcher finds for a list of detections. */
  function Found(truth: seq<Truth>, dets: seq<Detection>, rule: nat): map<nat, nat> {
    Greedy(truth, dets, rule, |dets|)
  }

  /** Detections of the rule, in time order, none after `at`. */
  predicate UpTo(dets: seq<Detection>, rule: nat, at: int) {
    TimeSorted(dets) && forall i :: 0 <= i < |dets| ==> dets[i].rule == rule && dets[i].at <= at
  }

  lemma {:induction false} FoundEarlier(truth: seq<Truth>, a: seq<Detection>, b: seq<Detection>, rule: nat, d: nat)
    requires d <= |a|
    ensures Greedy(truth, a + b, rule, d) == Greedy(truth, a, rule, d)
  {
    if d > 0 {
      FoundEarlier(truth, a, b, rule, d - 1);
    }
  }

  /** One more detection either finds nothing or adds one pair. */
  lemma OneMore(truth: seq<Truth>, dets: seq<Detection>, rule: nat, x: Detection)
    requires x.rule == rule
    ensures var g, h := Found(truth, dets, rule), Found(truth, dets + [x], rule);
            match Pick(truth, g.Values, rule, x.at, 0)
            case None => h == g
            case Some(t) => h == g[|dets| := t] && |h| == |g| + 1 && h.Values == g.Values + {t} && |dets| !in g
  {
    var more := dets + [x];
    FoundEarlier(truth, dets, [x], rule, |dets|);
    GreedyIsAssignment(truth, dets, rule, |dets|);
    hide Pick, Greedy, Assignment;
    if Pick(truth, Found(truth, dets, rule).Values, rule, x.at, 0).None? {
      GreedyStays(truth, more, rule, |dets|);
    } else {
      GreedyGrows(truth, more, rule, |dets|);
    }
  }

  /** The matched events are events, so there are no more than there are events. */
  lemma FoundSize(truth: seq<Truth>, dets: seq<Detection>, rule: nat)
    ensures |Found(truth, dets, rule).Values| <= |truth|
    ensures forall v :: v in Found(truth, dets, rule).Values ==> v < |truth| && truth[v].rule == rule
  {
    var g := Found(truth, dets, rule);
    GreedyIsAssignment(truth, dets, rule, |dets|);
    hide Greedy, Found, InWindow;
    forall v | v in g.Values ensures v < |truth| && truth[v].rule == rule {
      var i :| i in g && g[i] == v;
    }
    assert g.Values <= Below(|truth|);
    SubsetSize(g.Values, Below(|truth|));
    BelowSize(|truth|);
  }

  lemma UpToExtends(dets: seq<Detection>, rule: nat, at: int)
    requires UpTo(dets, rule, at)
    ensures UpTo(dets + [Detection(rule, at, None)], rule, at)
  {
  }

  /** `h` keeps what `g` has, and adds events whose windows hold `at` only. */
  predicate Adds(truth: seq<Truth>, g: map<nat, nat>, h: map<nat, nat>, at: int) {
    && (forall i :: i in g ==> i in h && h[i] == g[i])
    && forall v :: v in h.Values && v !in g.Values ==> v < |truth| && InWindow(truth[v], at)
  }

  /** No event that `h` adds to `g` is behind one that is open still and begins after `at`. */
  predicate InReach(truth: seq<Truth>, g: map<nat, nat>, h: map<nat, nat>, rule: nat, at: int) {
    forall v, s :: v in h.Values && v !in g.Values && 0 <= s < v && s < |truth| && Open(truth, h.Values, rule, s) ==>
      Left(truth[s]) <= at
  }

  lemma AddsNothing(truth: seq<Truth>, g: map<nat, nat>, rule: nat, at: int)
    ensures Adds(truth, g, g, at) && InReach(truth, g, g, rule, at)
  {
  }

  /** A first event added to `g`, and then what was added after it. */
  lemma AddsOn(truth: seq<Truth>, g: map<nat, nat>, k: map<nat, nat>, h: map<nat, nat>,
               rule: nat, at: int, d: nat, t: nat)
    requires d !in g && Pick(truth, g.Values, rule, at, 0) == Some(t) && k == g[d := t] && k.Values == g.Values + {t}
    requires Adds(truth, k, h, at) && InReach(truth, k, h, rule, at)
    ensures Adds(truth, g, h, at) && InReach(truth, g, h, rule, at)
  {
    hide Pick;
    forall v | v in k.Values ensures v in h.Values {
      var i :| i in k && k[i] == v;
      assert h[i] == v;
    }
    Passed(truth, g.Values, h.Values, rule, at, t);
  }

  /** Detections at `at` until one finds nothing; all of them but that one are matched. */
  lemma {:induction false} Exhaust(truth: seq<Truth>, dets: seq<Detection>, rule: nat, at: int)
    returns (more: seq<Detection>)
    requires UpTo(dets, rule, at)
    ensures UpTo(more, rule, at) && |dets| <= |more| && more[..|dets|] == dets
    ensures Pick(truth, Found(truth, more, rule).Values, rule, at, 0).None?
    ensures Adds(truth, Found(truth, dets, rule), Found(truth, more, rule), at)
    ensures InReach(truth, Found(truth, dets, rule), Found(truth, more, rule), rule, at)
    decreases |truth| - |Found(truth, dets, rule).Values|
  {
    hide Found, Pick, UpTo, Adds, InReach;
    var g, x := Found(truth, dets, rule), Detection(rule, at, None);
    OneMore(truth, dets, rule, x);
    AddsNothing(truth, g, rule, at);
    match Pick(truth, g.Values, rule, at, 0)
    case None =>
      more := dets;
    case Some(t) =>
      var h := Found(truth, dets + [x], rule);
      UpToExtends(dets, rule, at);
      FoundSize(truth, dets + [x], rule);
      FoundSize(truth, dets, rule);
      assert t in h.Values && t !in g.Values;
      more := Exhaust(truth, dets + [x], rule, at);
      assert more[..|dets|] == more[..|dets| + 1][..|dets|];
      AddsOn(truth, g, h, Found(truth, more, rule), rule, at, |dets|, t);
  }

  /** The event picked is not behind an open one whose window has not begun. */
  lemma Passed(truth: seq<Truth>, taken: set<nat>, later: set<nat>, rule: nat, at: int, t: nat)
    requires Pick(truth, taken, rule, at, 0) == Some(t) && taken <= later
    ensures forall s :: 0 <= s < t && Open(truth, later, rule, s) ==> Left(truth[s]) <= at
  {
    forall s | 0 <= s < t && Open(truth, later, rule, s) ensures Left(truth[s]) <= at {
      if at < Left(truth[s]) {
        PickStops(truth, taken, rule, at, 0, s);
      }
    }
  }

  // ---------------------------------------------------------------- window starts out of order

  /** Two events whose windows begin in the wrong order: when detections at the start of the
      later one's window find nothing any more, that event is still unanswered. */
  lemma LeftUnsorted(truth: seq<Truth>, rule: nat, s: nat, t: nat) returns (dets: seq<Detection>)
    requires s < t < |truth| && truth[s].rule == rule && truth[t].rule == rule
    requires Left(truth[t]) < Left(truth[s]) && Left(truth[t]) <= Right(truth[t])
    ensures TimeSorted(dets) && !Optimal(truth, dets, rule)
  {
    var at := Left(truth[t]);
    NothingFound(truth, rule, at);
    hide Greedy, Pick, Found;
    var all := Exhaust(truth, [], rule, at);
    var g := Found(truth, all, rule);
    assert s !in g.Values;
    assert t !in g.Values;
    dets := all + [Detection(rule, at, None)];
    UpToExtends(all, rule, at);
    OneMore(truth, all, rule, Detection(rule, at, None));
    LargerByOne(truth, all, rule, at, t);
  }

  lemma NothingFound(truth: seq<Truth>, rule: nat, at: int)
    ensures UpTo([], rule, at) && Found(truth, [], rule) == map[]
  {
  }

  /** A detection that finds nothing, and an event left over that it fits. */
  lemma LargerByOne(truth: seq<Truth>, dets: seq<Detection>, rule: nat, at: int, t: nat)
    requires var g := Found(truth, dets, rule);
             t < |truth| && truth[t].rule == rule && InWindow(truth[t], at) && t !in g.Values
    requires Found(truth, dets + [Detection(rule, at, None)], rule) == Found(truth, dets, rule)
    ensures !Optimal(truth, dets + [Detection(rule, at, None)], rule)
  {
    var g, more := Found(truth, dets, rule), dets + [Detection(rule, at, None)];
    AssignedEarlier(truth, dets, rule, Detection(rule, at, None));
    hide Greedy;
    var m := g[|dets| := t];
    NewPair(g, |dets|, t);
    assert Fits(truth, more, rule, |dets|, t);
    hide Fits;
    assert Assignment(truth, more, rule, 0, {}, m);
  }

  lemma AssignedEarlier(truth: seq<Truth>, dets: seq<Detection>, rule: nat, x: Detection)
    ensures Assignment(truth, dets + [x], rule, 0, {}, Found(truth, dets, rule))
    ensures |dets| !in Found(truth, dets, rule)
  {
    GreedyIsAssignment(truth, dets, rule, |dets|);
    hide Greedy, InWindow;
  }

  // ---------------------------------------------------------------- window ends out of order

  /** Detections at `at` until one takes the event `s`. */
  lemma {:induction false} UntilTaken(truth: seq<Truth>, dets: seq<Detection>, rule: nat, at: int, s: nat)
    returns (more: seq<Detection>)
    requires UpTo(dets, rule, at) && LeftSorted(truth, rule)
    requires s < |truth| && truth[s].rule == rule && InWindow(truth[s], at)
    requires forall v :: v in Found(truth, dets, rule).Values ==> v < s
    ensures UpTo(more, rule, at) && more != [] && more[|more| - 1].at == at
    ensures var g := Found(truth, more, rule);
            && |more| - 1 in g && g[|more| - 1] == s
            && forall v :: v in g.Values ==> v <= s
    decreases |truth| - |Found(truth, dets, rule).Values|
  {
    hide Found, Pick, UpTo, Greedy, LeftSorted, InWindow;
    var g, x := Found(truth, dets, rule), Detection(rule, at, None);
    OneMore(truth, dets, rule, x);
    UpToExtends(dets, rule, at);
    NotPast(truth, g.Values, rule, at, s);
    var t := Pick(truth, g.Values, rule, at, 0).value;
    more := dets + [x];
    FoundSize(truth, more, rule);
    FoundSize(truth, dets, rule);
    assert t in Found(truth, more, rule).Values && t !in g.Values;
    if t != s {
      more := UntilTaken(truth, more, rule, at, s);
    }
  }

  /** With window starts in order, an open event that fits is not passed over. */
  lemma NotPast(truth: seq<Truth>, taken: set<nat>, rule: nat, at: int, s: nat)
    requires LeftSorted(truth, rule) && s < |truth| && Open(truth, taken, rule, s) && InWindow(truth[s], at)
    ensures var r := Pick(truth, taken, rule, at, 0);
            r.Some? && r.value <= s && r.value !in taken
  {
    if Pick(truth, taken, rule, at, 0).None? {
      PickNone(truth, taken, rule, at, 0);
    }
    hide LeftSorted;
  }

  /** Two events whose windows end in the wrong order: the earlier one is taken by a detection
      that the later one fits too, and is then missed by a detection that only it fits. */
  lemma RightUnsorted(truth: seq<Truth>, rule: nat, s: nat, t: nat) returns (dets: seq<Detection>)
    requires s < t < |truth| && truth[s].rule == rule && truth[t].rule == rule && LeftSorted(truth, rule)
    requires Right(truth[t]) < Right(truth[s]) && Left(truth[t]) <= Right(truth[t])
    ensures TimeSorted(dets) && !Optimal(truth, dets, rule)
  {
    var early, late := Left(truth[t]), Right(truth[t]) + 1;
    assert Left(truth[s]) <= early;
    NothingFound(truth, rule, early);
    hide Greedy, Pick, Found, LeftSorted;
    var first := UntilTaken(truth, [], rule, early, s);
    var d := |first| - 1;
    assert UpTo(first, rule, late);
    var all := Exhaust(truth, first, rule, late);
    assert all[d] == all[..|first|][d] == first[d];
    assert t !in Found(truth, all, rule).Values;
    dets := all + [Detection(rule, late, None)];
    UpToExtends(all, rule, late);
    OneMore(truth, all, rule, Detection(rule, late, None));
    SwapsIn(truth, all, rule, late, d, s, t);
  }

  /** A detection that finds nothing fits the event that detection `d` took, and `d` fits one
      that is left over. */
  lemma SwapsIn(truth: seq<Truth>, dets: seq<Detection>, rule: nat, at: int, d: nat, s: nat, t: nat)
    requires var g := Found(truth, dets, rule);
             && d in g && g[d] == s && d < |dets| && dets[d].rule == rule
             && s < |truth| && truth[s].rule == rule && InWindow(truth[s], at)
             && t < |truth| && truth[t].rule == rule && InWindow(truth[t], dets[d].at) && t !in g.Values
    requires Found(truth, dets + [Detection(rule, at, None)], rule) == Found(truth, dets, rule)
    ensures !Optimal(truth, dets + [Detection(rule, at, None)], rule)
  {
    var g, more := Found(truth, dets, rule), dets + [Detection(rule, at, None)];
    AssignedEarlier(truth, dets, rule, Detection(rule, at, None));
    hide Greedy;
    assert Fits(truth, more, rule, |dets|, s) && Fits(truth, more, rule, d, t);
    hide Fits;
    var m := g[d := t][|dets| := s];
    assert m.Keys == g.Keys + {|dets|};
    assert Injective(m);
    assert Assignment(truth, more, rule, 0, {}, m);
  }

  // ---------------------------------------------------------------- exactly

  /** For windows that are not empty: the matcher is optimal on all lists of detections in time
      order if and only if both ends of the windows are in order. */
  lemma GreedyOptimalExactly(truth: seq<Truth>, rule: nat)
    requires NoEmptyWindow(truth, rule)
    ensures LeftSorted(truth, rule) && RightSorted(truth, rule) <==>
            forall dets: seq<Detection> :: TimeSorted(dets) ==> Optimal(truth, dets, rule)
  {
    if !LeftSorted(truth, rule) {
      var s, t :| 0 <= s < t < |truth| && truth[s].rule == rule && truth[t].rule == rule
               && Left(truth[t]) < Left(truth[s]);
      var dets := LeftUnsorted(truth, rule, s, t);
    } else if !RightSorted(truth, rule) {
      var s, t :| 0 <= s < t < |truth| && truth[s].rule == rule && truth[t].rule == rule
               && Right(truth[t]) < Right(truth[s]);
      var dets := RightUnsorted(truth, rule, s, t);
    } else {
      forall dets: seq<Detection> | TimeSorted(dets) ensures Optimal(truth, dets, rule) {
        forall m | Assignment(truth, dets, rule, 0, {}, m) ensures |m| <= |Greedy(truth, dets, rule, |dets|)| {
          GreedyIsOptimal(truth, dets, rule, m);
        }
      }
    }
  }
}
